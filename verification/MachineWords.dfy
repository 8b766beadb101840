/** Machine integers as the C code handles them: 32-bit wrapping and little-endian fields. */
module MachineWords {
  import opened Options

  const UINT32 := 0x1_0000_0000

  /** Unsigned 32-bit arithmetic. */
  function Wrap32(n: int): (r: nat)
    ensures 0 <= n < UINT32 ==> r == n
    ensures n == -1 ==> r == UINT32 - 1
  {
    n % UINT32
  }

  function Min(a: nat, b: nat): nat { if a < b then a else b }

  /** Little-endian fields of two and four bytes. */
  function Bytes2(n: nat): (r: seq<Byte>)
    ensures |r| == 2
    ensures n < 0x1_0000 ==> Read2(r, 0) == n
  {
    [n % 256, n / 256 % 256]
  }

  function Bytes4(n: nat): (r: seq<Byte>)
    ensures |r| == 4
    ensures n < UINT32 ==> Read4(r, 0) == n
  {
    assert n / 256 / 256 == n / 0x1_0000 && n / 0x1_0000 / 256 == n / 0x100_0000;
    [n % 256, n / 256 % 256, n / 0x1_0000 % 256, n / 0x100_0000 % 256]
  }

  function Read2(b: seq<Byte>, at: nat): nat
    requires at + 2 <= |b|
  {
    b[at] as int + 256 * b[at + 1] as int
  }

  function Read4(b: seq<Byte>, at: nat): nat
    requires at + 4 <= |b|
  {
    b[at] as int + 256 * b[at + 1] as int + 0x1_0000 * b[at + 2] as int + 0x100_0000 * b[at + 3] as int
  }

  /** A field reads the same wherever it stands. */
  lemma SameField2(b: seq<Byte>, at: nat, field: seq<Byte>)
    requires |field| == 2 && at + 2 <= |b| && b[at..at + 2] == field
    ensures Read2(b, at) == Read2(field, 0)
  {
    var f := b[at..at + 2];
    assert b[at] == f[0] && b[at + 1] == f[1];
  }

  lemma SameField4(b: seq<Byte>, at: nat, field: seq<Byte>)
    requires |field| == 4 && at + 4 <= |b| && b[at..at + 4] == field
    ensures Read4(b, at) == Read4(field, 0)
  {
    var f := b[at..at + 4];
    assert b[at] == f[0] && b[at + 1] == f[1] && b[at + 2] == f[2] && b[at + 3] == f[3];
  }
}
