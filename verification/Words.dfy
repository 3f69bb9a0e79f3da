// Machine quantities every part of the kernel shares.
module Words {

  type Byte = x: nat | x < 256

  const WORD32: nat := 0x1_0000_0000
  const WORD64: nat := 0x1_0000_0000_0000_0000
  const PAGE_SIZE: nat := 4096
}
