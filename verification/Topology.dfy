/** Sizes and enumerations shared by the modules (src/include/state.h,
    src/include/fastpath.h, src/vhost/vhost.h). */
module Topology {
  const MAX_VHOSTS: nat := 64
  const MAX_PKT_BURST: nat := 64
  const MAX_ETH_TX_QUEUES: nat := 20
  const RING_SIZE: nat := 16384

  /** The number of values of a 16-bit and a 32-bit word. */
  const COUNTER16: nat := 0x1_0000
  const COUNTER32: nat := 0x1_0000_0000

  const IPPROTO_TCP: nat := 6
  const IPPROTO_UDP: nat := 17

  /** The states of a device (src/vhost/vhost.h:19-21). */
  datatype Readiness = MacLearning | DeviceRx | SafeRemove
}
