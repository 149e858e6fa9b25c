/** The statuses with which the NVMe card completes commands: a status code type and a status
code, shifted past the phase bit (examples/nvme/nvme_card.c). */
module NvmeStatus {

  /** ((sct << 8) | sc) << 1 */
  function Status(sct: nat, sc: nat): nat {
    (sct * 256 + sc) * 2
  }

  const SUCCESS: nat := Status(0, 0x00)
  const INVALID_FIELD: nat := Status(0, 0x02)
  const INTERNAL: nat := Status(0, 0x06)
  const INVALID_NS: nat := Status(0, 0x0b)
  const INVALID_QUEUE_CREATE: nat := Status(1, 0x04)
  const INVALID_QUEUE_DELETE: nat := Status(1, 0x03)
}
