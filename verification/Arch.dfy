/** The build-time parameters of the emulator: register width, M extension and the
    memory map. */
module Arch {
  import opened Words

  const TWO32 := 0x1_0000_0000
  const TWO64 := 0x1_0000_0000_0000_0000

  const MAX_CYCLES := 1_000_000_000
  const RAM_START := 0x2000_0000
  const SHIFT_MAX_WORD := 0x1F
  const ROM_SIZE := 0x8_0000
  const RAM_SIZE := 0x1_0000

  type Byte = b: int | 0 <= b < 256

  /** One build of the emulator. */
  datatype Config = Config(rv64: bool, mext: bool) {
    function Xlen(): nat {
      if rv64 then 64 else 32
    }

    /** 2^XLEN: registers hold values below it. */
    function Modulus(): nat {
      if rv64 then TWO64 else TWO32
    }
  }

  lemma ModulusIsPow2(cfg: Config)
    ensures cfg.Modulus() == Pow2(cfg.Xlen())
  {
    Pow2Values();
  }

  lemma SmallWord(cfg: Config, x: int)
    requires 0 <= x < TWO32
    ensures Wrap(cfg.Modulus(), x) == x
  {
    WrapSmall(cfg.Modulus(), x);
  }
}
