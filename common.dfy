/** Shared types, result codes, size constants and fixed-width arithmetic
    used by every other module of the GSI (generic system image) install model. */
module Common {

  /** A byte of image payload. */
  newtype byte = x: int | 0 <= x < 256

  datatype Option<T> = None | Some(value: T)
  {
    function GetOr(default: T): T
    {
      match this
      case Some(v) => v
      case None => default
    }
  }

  /** The install result codes of the service interface (IGsiService.INSTALL_*). */
  datatype InstallStatus =
    | InstallOk
    | ErrorGeneric
    | ErrorNoSpace
    | ErrorFileSystemCluttered

  const KiB: nat := 1024
  const MiB: nat := 1024 * 1024
  const GiB: nat := 1024 * 1024 * 1024

  /** Default size of the writable userdata image (kDefaultUserdataSize). */
  const DefaultUserdataSize: nat := 2 * GiB

  /** The block size used for streamed reads and zero writes (kBlockSize, the zero page). */
  const BlockSize: nat := 4096

  /** The partition-table sector size (LP_SECTOR_SIZE). */
  const SectorSize: nat := 512

  const TwoTo32: nat := 0x1_0000_0000
  const TwoTo64: nat := 0x1_0000_0000_0000_0000

  /** 2^63: the bound of the source's int64_t values. */
  const TwoTo63: int := 0x8000_0000_0000_0000

  predicate IsInt64(x: int)
  {
    -TwoTo63 <= x < TwoTo63
  }

  /** Conversion of an integer to uint64_t: wrap-around modulo 2^64. */
  function U64(x: int): (r: nat)
    ensures r < TwoTo64
    ensures 0 <= x < TwoTo64 ==> r == x
    ensures x < 0 && 0 <= x + TwoTo64 ==> r == x + TwoTo64
  {
    x % TwoTo64
  }

  /** Conversion of an integer to uint32_t: wrap-around modulo 2^32. */
  function U32(x: int): (r: nat)
    ensures r < TwoTo32
    ensures 0 <= x < TwoTo32 ==> r == x
    ensures x < 0 && 0 <= x + TwoTo32 ==> r == x + TwoTo32
  {
    x % TwoTo32
  }

  /** Conversion to a 32-bit two's-complement int (the truncation of a wider value). */
  function Int32(x: int): (r: int)
    ensures -0x8000_0000 <= r < 0x8000_0000
    ensures -0x8000_0000 <= x < 0x8000_0000 ==> r == x
  {
    var w := x % TwoTo32;
    if w < 0x8000_0000 then w else w - TwoTo32
  }

  /** C integer division, which truncates toward zero (Dafny's / is Euclidean). */
  function Quot(a: int, b: int): (q: int)
    requires b != 0
    ensures 0 <= a && 0 < b ==> q == a / b
  {
    if (a >= 0) == (b > 0) then
      (if a >= 0 then a / b else -a / -b)
    else
      -((if a >= 0 then a else -a) / (if b > 0 then b else -b))
  }

  function Min(a: int, b: int): (m: int)
    ensures m <= a && m <= b && (m == a || m == b)
  {
    if a <= b then a else b
  }

  /** A run of n zero bytes. */
  function Zeros(n: nat): (z: seq<byte>)
    ensures |z| == n
    ensures forall i :: 0 <= i < n ==> z[i] == 0
  {
    seq(n, _ => 0)
  }

  predicate StartsWith(s: string, prefix: string)
  {
    |prefix| <= |s| && s[..|prefix|] == prefix
  }

  predicate EndsWith(s: string, suffix: string)
  {
    |suffix| <= |s| && s[|s| - |suffix|..] == suffix
  }

  lemma MulLe(a: nat, b: nat, c: nat)
    requires a <= b
    ensures a * c <= b * c
  {
  }

  /** a <= b * c with c > 0 bounds the quotient a / c by b. */
  lemma DivLe(a: nat, b: nat, c: nat)
    requires c > 0 && a <= b * c
    ensures a / c <= b
  {
    var q := a / c;
    assert q * c + a % c == a;
    if q > b {
      MulLe(b + 1, q, c);
    }
  }

  /** The quotient is the k with k * d <= n < (k + 1) * d. */
  lemma DivUnique(n: nat, d: nat, k: nat)
    requires d > 0 && k * d <= n < k * d + d
    ensures n / d == k
  {
    var q := n / d;
    assert q * d + n % d == n;
    if q < k {
      MulLe(q + 1, k, d);
    } else if q > k {
      MulLe(k + 1, q, d);
    }
  }

  /** Division by a positive divisor is monotone in the dividend. */
  lemma DivMono(a: nat, b: nat, d: nat)
    requires a <= b && d > 0
    ensures a / d <= b / d
  {
    var qa, qb := a / d, b / d;
    assert qa * d + a % d == a;
    assert qb * d + b % d == b;
    if qa > qb {
      MulLe(qb + 1, qa, d);
    }
  }

  /** A decimal digit. */
  predicate IsDigit(c: char)
  {
    '0' <= c <= '9'
  }

  /** The value of a run of decimal digits, most significant first. */
  function DigitsValue(s: string): nat
    requires forall i :: 0 <= i < |s| ==> IsDigit(s[i])
    decreases |s|
  {
    if s == [] then 0
    else
      assert IsDigit(s[|s| - 1]);
      DigitsValue(s[..|s| - 1]) * 10 + (s[|s| - 1] as int - '0' as int)
  }
}
