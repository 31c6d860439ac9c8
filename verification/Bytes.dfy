/** Fixed-width numbers and the little-endian fields that sectors and files hold.
    Each width is a subset of `int`, so an expression that could leave its width
    does not verify where a value of that width is expected. */
module Bytes {

  type Byte = b: int | 0 <= b < 0x100
  type U16 = n: int | 0 <= n < 0x1_0000
  type U32 = n: int | 0 <= n < 0x1_0000_0000
  type U64 = n: int | 0 <= n < 0x1_0000_0000_0000_0000

  datatype Option<+T> = None | Some(value: T)

  datatype Result<+T, +E> = Ok(value: T) | Err(error: E)

  function U16At(s: seq<Byte>, at: nat): U16
    requires at + 2 <= |s|
  {
    s[at] as int + 0x100 * s[at + 1] as int
  }

  function U32At(s: seq<Byte>, at: nat): U32
    requires at + 4 <= |s|
  {
    s[at] as int + 0x100 * s[at + 1] as int + 0x1_0000 * s[at + 2] as int + 0x100_0000 * s[at + 3] as int
  }

  function U64At(s: seq<Byte>, at: nat): U64
    requires at + 8 <= |s|
  {
    U32At(s, at) + 0x1_0000_0000 * U32At(s, at + 4)
  }

  function LittleEndian16(n: U16): (s: seq<Byte>)
    ensures |s| == 2 && U16At(s, 0) == n
  {
    [n % 0x100, n / 0x100]
  }

  function LittleEndian32(n: U32): (s: seq<Byte>)
    ensures |s| == 4 && U32At(s, 0) == n
  {
    [n % 0x100, n / 0x100 % 0x100, n / 0x1_0000 % 0x100, n / 0x100_0000]
  }

  /** `s` with `bytes` written over it at `at`: what `copy_from_slice` does to a slice. */
  function Splice(s: seq<Byte>, at: nat, bytes: seq<Byte>): (r: seq<Byte>)
    requires at + |bytes| <= |s|
    ensures |r| == |s|
    ensures forall i :: 0 <= i < |s| ==> r[i] == if at <= i < at + |bytes| then bytes[i - at] else s[i]
  {
    s[..at] + bytes + s[at + |bytes|..]
  }

  /** Two places read the same number when their bytes are the same. */
  lemma {:induction false} U32AtSame(s: seq<Byte>, at: nat, r: seq<Byte>, from: nat)
    requires at + 4 <= |s| && from + 4 <= |r|
    requires s[at..at + 4] == r[from..from + 4]
    ensures U32At(s, at) == U32At(r, from)
  {
    var x, y := s[at..at + 4], r[from..from + 4];
    assert x[0] == s[at] && x[1] == s[at + 1] && x[2] == s[at + 2] && x[3] == s[at + 3];
    assert y[0] == r[from] && y[1] == r[from + 1] && y[2] == r[from + 2] && y[3] == r[from + 3];
  }

  /** `a * n`, counted up. Products of two unknowns are written this way so that the
      solver only ever meets linear arithmetic; `TimesIsProduct` is the bridge. */
  function Times(a: nat, n: nat): nat {
    if a == 0 then 0 else Times(a - 1, n) + n
  }

  lemma {:induction false} TimesIsProduct(a: nat, n: nat)
    ensures Times(a, n) == a * n
  {
    if a > 0 {
      TimesIsProduct(a - 1, n);
      assert (a - 1) * n + n == a * n;
    }
  }

  lemma {:induction false} TimesGap(a: nat, b: nat, n: nat)
    requires a < b
    ensures Times(a, n) + n <= Times(b, n)
    decreases b
  {
    if a + 1 < b {
      TimesGap(a, b - 1, n);
    }
  }

  /** A quotient and a remainder name exactly one number. */
  lemma {:induction false} DivModUnique(a: nat, q: nat, a': nat, q': nat, n: nat)
    requires q < n && q' < n
    requires Times(a, n) + q == Times(a', n) + q'
    ensures a == a' && q == q'
  {
    if a < a' {
      TimesGap(a, a', n);
    } else if a' < a {
      TimesGap(a', a, n);
    }
  }

  /** Rust's `/` and `%` on unsigned numbers, as a count of whole `n`s and what is left. */
  lemma {:induction false} Division(a: nat, n: nat)
    requires n > 0
    ensures 0 <= a / n && 0 <= a % n < n
    ensures a == Times(a / n, n) + a % n
  {
    assert a == n * (a / n) + a % n;
    assert 0 <= a / n;
    TimesIsProduct(a / n, n);
  }

  /** A sequence with no repeats whose members are all in a set is no longer than it. */
  lemma {:induction false} Pigeonhole(s: seq<nat>, inside: set<nat>)
    requires forall i, j :: 0 <= i < j < |s| ==> s[i] != s[j]
    requires forall i :: 0 <= i < |s| ==> s[i] in inside
    ensures |s| <= |inside|
  {
    if s != [] {
      var last := |s| - 1;
      Pigeonhole(s[..last], inside - {s[last]});
    }
  }

  /** The numbers from `low` up to `high`, which are `high - low` in number. */
  function Interval(low: nat, high: nat): (r: set<nat>)
    ensures forall c: nat :: c in r <==> low <= c < high
    ensures low <= high ==> |r| == high - low
    decreases high
  {
    if low >= high then {} else Interval(low, high - 1) + {high - 1}
  }
}
