/** Fixed-width integers, bitwise conjunction, and byte codecs shared by every lab. */
module Words {

  datatype Option<+T> = None | Some(value: T) {
    function GetOr(default: T): T { if Some? then value else default }
  }

  datatype Result<+T, +E> = Ok(value: T) | Err(error: E)

  /** The elements of front before those of a successful result. */
  function Prepend<T, E>(front: seq<T>, r: Result<seq<T>, E>): Result<seq<T>, E> {
    if r.Ok? then Ok(front + r.value) else r
  }

  lemma PrependTwice<T, E>(a: seq<T>, b: seq<T>, r: Result<seq<T>, E>)
    ensures Prepend(a, Prepend(b, r)) == Prepend(a + b, r)
  {
    if r.Ok? {
      assert a + (b + r.value) == a + b + r.value;
    }
  }

  lemma NoFront<T, E>(r: Result<seq<T>, E>)
    ensures Prepend([], r) == r
  {
    if r.Ok? {
      assert [] + r.value == r.value;
    }
  }

  const B16 := 0x1_0000
  const B32 := 0x1_0000_0000
  const B64 := 0x1_0000_0000_0000_0000

  type Byte = x: int | 0 <= x < 256
  type U16 = x: int | 0 <= x < 0x1_0000
  type U32 = x: int | 0 <= x < 0x1_0000_0000
  type U64 = x: int | 0 <= x < 0x1_0000_0000_0000_0000
  type I32 = x: int | -0x8000_0000 <= x < 0x8000_0000
  type I64 = x: int | -0x8000_0000_0000_0000 <= x < 0x8000_0000_0000_0000

  // Go's conversions between signed and unsigned integers of one width (two's complement).
  function I32ToU32(x: I32): U32 { x % B32 }
  function U32ToI32(x: U32): I32 { if x < 0x8000_0000 then x else x - B32 }
  function I64ToU64(x: I64): U64 { x % B64 }
  function U64ToI64(x: U64): I64 { if x < 0x8000_0000_0000_0000 then x else x - B64 }

  // uint32 addition, subtraction and multiplication wrap.
  function WrapAdd(a: U32, b: U32): U32 { (a + b) % B32 }
  function WrapSub(a: U32, b: U32): U32 { (a - b) % B32 }
  function WrapMul(a: U32, b: U32): U32 { (a * b) % B32 }

  /** The conversions are those of two's complement: equal where both types hold the value, and 2^32
      or 2^64 apart otherwise. */
  lemma ConversionsAre(a: I32, b: U32, c: I64, d: U64)
    ensures I32ToU32(a) == if a < 0 then a + 0x1_0000_0000 else a
    ensures U32ToI32(b) == b || U32ToI32(b) == b - 0x1_0000_0000
    ensures I64ToU64(c) == if c < 0 then c + 0x1_0000_0000_0000_0000 else c
    ensures U64ToI64(d) == d || U64ToI64(d) == d - 0x1_0000_0000_0000_0000
  {}

  /** Wrapping arithmetic is exact up to a multiple of 2^32: at most one of a sum or difference. */
  lemma WrapsAre(a: U32, b: U32)
    ensures WrapAdd(a, b) == a + b || WrapAdd(a, b) == a + b - 0x1_0000_0000
    ensures WrapSub(a, b) == a - b || WrapSub(a, b) == a - b + 0x1_0000_0000
    ensures WrapMul(a, b) == a * b - (a * b) / 0x1_0000_0000 * 0x1_0000_0000
  {}

  function Pow2(k: nat): nat
    ensures Pow2(k) > 0
  {
    if k == 0 then 1 else 2 * Pow2(k - 1)
  }

  /** A ring size the kernel may choose: a power of two that fits a uint32. */
  ghost predicate IsRingSize(n: nat) {
    exists k: nat :: k <= 31 && n == Pow2(k)
  }

  /** Bitwise conjunction, bit by bit. */
  function And(x: nat, y: nat): nat
    decreases x
  {
    if x == 0 then 0 else 2 * And(x / 2, y / 2) + (if x % 2 == 1 && y % 2 == 1 then 1 else 0)
  }

  /** A nonzero multiple of n is at least n away from zero. */
  lemma MultipleGap(d: int, n: nat)
    ensures d >= 1 ==> d * n >= n
    ensures d <= -1 ==> d * n + n <= 0
  {}

  /** Quotient and remainder are determined by the division equation. */
  lemma DivisionUnique(x: int, n: int, q: int, r: int)
    requires 0 <= r < n && x == q * n + r
    ensures x / n == q && x % n == r
  {
    var d := x / n - q;
    MultipleGap(d, n);
    assert d * n == x / n * n - q * n;
    assert x == x / n * n + x % n;
    assert d * n == r - x % n;
  }

  lemma ModDouble(x: nat, m: nat)
    requires m > 0
    ensures x % (2 * m) == 2 * (x / 2 % m) + x % 2
  {
    var h := x / 2;
    var q, r := h / m, h % m;
    assert h == q * m + r;
    assert q * (2 * m) == 2 * (q * m);
    DivisionUnique(x, 2 * m, q, 2 * r + x % 2);
  }

  lemma ModMod(x: nat, n: nat, c: nat)
    requires n > 0 && c > 0
    ensures n * c > 0 && x % (n * c) % n == x % n
  {
    var m := n * c;
    var q, y := x / m, x % m;
    var s, r := y / n, y % n;
    assert x == q * m + y && y == s * n + r;
    assert q * m == q * c * n;
    assert (q * c + s) * n == q * c * n + s * n;
    DivisionUnique(x, n, q * c + s, r);
  }

  /** Masking with 2^k - 1 is reduction modulo 2^k. */
  lemma {:induction false} AndMask(x: nat, k: nat)
    ensures And(x, Pow2(k) - 1) == x % Pow2(k)
  {
    if k == 0 {
      AndZero(x);
    } else if x != 0 {
      var m := Pow2(k - 1);
      AndMask(x / 2, k - 1);
      assert (2 * m - 1) / 2 == m - 1 && (2 * m - 1) % 2 == 1;
      ModDouble(x, m);
    }
  }

  lemma AndZero(x: nat)
    ensures And(x, 0) == 0
  {}

  /** Clearing the two low bits of a 64-bit word rounds down to a multiple of four. */
  lemma AndClearLowTwo(x: nat)
    requires x < B64
    ensures And(x, B64 - 4) == x - x % 4
  {
    assert Pow2(62) == B64 / 4 by { Pow2Values(); }
    AndMask(x / 4, 62);
    assert And(x / 4, B64 / 4 - 1) == x / 4;
    assert (B64 - 4) / 2 == B64 / 2 - 2 && (B64 / 2 - 2) / 2 == B64 / 4 - 1;
    assert And(x / 2, B64 / 2 - 2) == 2 * And(x / 2 / 2, B64 / 4 - 1);
    assert x / 2 / 2 == x / 4;
    assert And(x, B64 - 4) == 2 * And(x / 2, B64 / 2 - 2);
  }

  lemma Pow2Values()
    ensures Pow2(8) == 256 && Pow2(16) == B16 && Pow2(31) == 0x8000_0000 && Pow2(32) == B32 && Pow2(62) == B64 / 4
  {
    assert Pow2(8) == 256;
    assert Pow2(16) == 0x1_0000;
    Pow2Sum(16, 15);
    Pow2Sum(16, 16);
    Pow2Sum(32, 30);
    Pow2Sum(16, 14);
  }

  lemma {:induction false} Pow2Sum(a: nat, b: nat)
    ensures Pow2(a + b) == Pow2(a) * Pow2(b)
  {
    if b != 0 {
      Pow2Sum(a, b - 1);
      assert Pow2(a) * (2 * Pow2(b - 1)) == 2 * (Pow2(a) * Pow2(b - 1));
    }
  }

  /** A ring size divides 2^32, so a wrapped counter and the true count select the same slot. */
  lemma WrappedSlot(count: nat, n: nat)
    requires IsRingSize(n)
    ensures 0 < n <= 0x8000_0000
    ensures And(count % B32, n - 1) == count % n
  {
    var k: nat :| k <= 31 && n == Pow2(k);
    var c := Pow2(32 - k);
    Pow2Sum(k, 32 - k);
    Pow2Values();
    assert n * c == B32;
    Pow2Sum(31 - k, k);
    MultipleGap(Pow2(31 - k), n);
    AndMask(count % B32, k);
    ModMod(count, n, c);
  }

  /** The wrapped difference of two counters is the true difference while it fits 32 bits. */
  lemma WrappedDistance(lo: nat, hi: nat)
    requires lo <= hi < lo + B32
    ensures WrapSub(hi % B32, lo % B32) == hi - lo
  {
    var q := hi / B32 - lo / B32;
    assert hi % B32 - lo % B32 == (hi - lo) - q * B32;
    DivisionUnique(hi % B32 - lo % B32, B32, -q, hi - lo);
  }

  lemma WrappedNext(count: nat)
    ensures WrapAdd(count % B32, 1) == (count + 1) % B32
  {}

  /** Two positions less than n apart fall into different slots of a ring of size n. */
  lemma DistinctSlots(i: nat, j: nat, n: nat)
    requires i < j < i + n
    ensures i % n != j % n
  {
    var d := j / n - i / n;
    MultipleGap(d, n);
    assert d * n == j / n * n - i / n * n;
  }

  // ---- byte order ----

  datatype Endian = Little | Big

  function Span(w: nat): nat
    ensures Span(w) > 0
  {
    if w == 0 then 1 else 256 * Span(w - 1)
  }

  lemma SpanValues()
    ensures Span(1) == 256 && Span(2) == B16 && Span(4) == B32 && Span(8) == B64
  {
    assert Span(2) == 256 * Span(1);
    assert Span(4) == 256 * (256 * Span(2));
    assert Span(6) == 256 * (256 * Span(4));
    assert Span(8) == 256 * (256 * Span(6));
  }

  /** The low w bytes of v, in byte order e. */
  function Put(e: Endian, w: nat, v: nat): (b: seq<Byte>)
    ensures |b| == w
  {
    if w == 0 then []
    else if e.Little? then [v % 256] + Put(e, w - 1, v / 256)
    else Put(e, w - 1, v / 256) + [v % 256]
  }

  function Get(e: Endian, b: seq<Byte>): nat {
    if b == [] then 0
    else if e.Little? then b[0] + 256 * Get(e, b[1..])
    else 256 * Get(e, b[..|b| - 1]) + b[|b| - 1]
  }

  /** The bytes of a word: little-endian has the lowest first, big-endian the highest. */
  lemma PutBytes(v: nat)
    ensures Put(Little, 2, v) == [v % 256, v / 256 % 256]
    ensures Put(Big, 2, v) == [v / 256 % 256, v % 256]
    ensures Put(Little, 4, v) == [v % 256, v / 256 % 256, v / 0x1_0000 % 256, v / 0x100_0000 % 256]
    ensures Put(Big, 4, v) == [v / 0x100_0000 % 256, v / 0x1_0000 % 256, v / 256 % 256, v % 256]
  {
    hide Put;
    var a := v / 256;
    var b := a / 256;
    var c := b / 256;
    assert b == v / 0x1_0000 && c == v / 0x100_0000;
    PutOne(3, v);
    PutOne(2, a);
    PutOne(1, b);
    PutOne(0, c);
    PutOne(1, v);
    PutOne(0, a);
  }

  lemma PutOne(w: nat, v: nat)
    ensures Put(Little, w + 1, v) == [v % 256] + Put(Little, w, v / 256)
    ensures Put(Big, w + 1, v) == Put(Big, w, v / 256) + [v % 256]
    ensures Put(Little, 0, v) == Put(Big, 0, v) == []
  {}

  /** What is left of v above its low bytes. */
  function Above(v: nat, low: nat): nat {
    if low == 0 then v else Above(v / 256, low - 1)
  }

  lemma AddThree(a: seq<Byte>, b: seq<Byte>, c: seq<Byte>)
    ensures (a + b) + c == a + (b + c)
  {}

  lemma {:induction false} PutSplit(low: nat, high: nat, v: nat)
    ensures Put(Little, low + high, v) == Put(Little, low, v) + Put(Little, high, Above(v, low))
    ensures Put(Big, low + high, v) == Put(Big, high, Above(v, low)) + Put(Big, low, v)
  {
    hide Put;
    var top := Above(v, low);
    if low == 0 {
      PutOne(0, v);
      assert [] + Put(Little, high, v) == Put(Little, high, v) && Put(Big, high, v) + [] == Put(Big, high, v);
    } else {
      var x := [v % 256];
      PutSplit(low - 1, high, v / 256);
      PutOne(low + high - 1, v);
      PutOne(low - 1, v);
      AddThree(x, Put(Little, low - 1, v / 256), Put(Little, high, top));
      AddThree(Put(Big, high, top), Put(Big, low - 1, v / 256), x);
    }
  }

  /** An eight-byte word is its two halves, in byte order. */
  lemma PutHalves(v: nat)
    ensures Put(Little, 8, v) == Put(Little, 4, v) + Put(Little, 4, v / 0x1_0000_0000)
    ensures Put(Big, 8, v) == Put(Big, 4, v / 0x1_0000_0000) + Put(Big, 4, v)
  {
    hide Put;
    PutSplit(4, 4, v);
    var a := v / 256;
    var b := a / 256;
    var c := b / 256;
    assert Above(v, 4) == Above(a, 3) == Above(b, 2) == Above(c, 1) == c / 256;
    assert b == v / 0x1_0000 && c == v / 0x100_0000 && c / 256 == v / 0x1_0000_0000;
  }

  lemma {:induction false} GetBound(e: Endian, b: seq<Byte>)
    ensures Get(e, b) < Span(|b|)
  {
    if b != [] {
      GetBound(e, if e.Little? then b[1..] else b[..|b| - 1]);
    }
  }

  /** Loading what was stored gives the value back. */
  lemma {:induction false} GetPut(e: Endian, w: nat, v: nat)
    requires v < Span(w)
    ensures Get(e, Put(e, w, v)) == v
  {
    if w != 0 {
      var b := Put(e, w, v);
      GetPut(e, w - 1, v / 256);
      assert e.Little? ==> b[1..] == Put(e, w - 1, v / 256);
      assert e.Big? ==> b[..w - 1] == Put(e, w - 1, v / 256);
    }
  }

  /** Storing what was loaded gives the bytes back. */
  lemma {:induction false} PutGet(e: Endian, b: seq<Byte>)
    ensures Put(e, |b|, Get(e, b)) == b
  {
    if b != [] {
      var rest := if e.Little? then b[1..] else b[..|b| - 1];
      var digit := if e.Little? then b[0] else b[|b| - 1];
      PutGet(e, rest);
      DivisionUnique(Get(e, b), 256, Get(e, rest), digit);
      assert b == if e.Little? then [digit] + rest else rest + [digit];
    }
  }

  function Zeros(n: nat): (z: seq<Byte>)
    ensures |z| == n
    ensures forall i :: 0 <= i < n ==> z[i] == 0
  {
    seq(n, _ => 0)
  }

  // ---- trailing zero bytes ----

  /** strings.TrimRight(s, "\x00") */
  function TrimNuls(s: seq<Byte>): seq<Byte> {
    if s == [] || s[|s| - 1] != 0 then s else TrimNuls(s[..|s| - 1])
  }

  lemma {:induction false} TrimPadding(name: seq<Byte>, n: nat)
    requires name == [] || name[|name| - 1] != 0
    ensures TrimNuls(name + Zeros(n)) == name
  {
    if n == 0 {
      assert name + Zeros(0) == name;
    } else {
      TrimPadding(name, n - 1);
      assert (name + Zeros(n))[..|name| + n - 1] == name + Zeros(n - 1);
    }
  }

  // ---- byte buffers ----

  /** b with the bytes from offset off replaced by x. */
  function Patch(b: seq<Byte>, off: nat, x: seq<Byte>): (r: seq<Byte>)
    requires off + |x| <= |b|
    ensures |r| == |b|
  {
    b[..off] + x + b[off + |x|..]
  }

  function Load(e: Endian, w: nat, b: seq<Byte>, off: nat): (v: nat)
    requires off + w <= |b|
    ensures v < Span(w)
  {
    GetBound(e, b[off..off + w]);
    Get(e, b[off..off + w])
  }

  /** A load sees the store at its own offset and no store beside it. */
  lemma LoadStore(e: Endian, w: nat, b: seq<Byte>, off: nat, v: nat)
    requires off + w <= |b| && v < Span(w)
    ensures Load(e, w, Patch(b, off, Put(e, w, v)), off) == v
  {
    GetPut(e, w, v);
    assert Patch(b, off, Put(e, w, v))[off..off + w] == Put(e, w, v);
  }

  lemma SliceBeside(b: seq<Byte>, off: nat, x: seq<Byte>, lo: nat, hi: nat)
    requires off + |x| <= |b| && lo <= hi <= |b|
    requires hi <= off || off + |x| <= lo
    ensures Patch(b, off, x)[lo..hi] == b[lo..hi]
  {}

  function LoadU16(e: Endian, b: seq<Byte>, off: nat): U16
    requires off + 2 <= |b|
  {
    SpanValues();
    Load(e, 2, b, off)
  }

  function LoadU64(e: Endian, b: seq<Byte>, off: nat): U64
    requires off + 8 <= |b|
  {
    SpanValues();
    Load(e, 8, b, off)
  }

  function LoadU32(e: Endian, b: seq<Byte>, off: nat): U32
    requires off + 4 <= |b|
  {
    SpanValues();
    Load(e, 4, b, off)
  }

  /** Writes the low w bytes of v into the buffer at off. */
  method PutUint(a: array<Byte>, off: nat, e: Endian, w: nat, v: nat)
    requires off + w <= a.Length
    modifies a
    ensures a[..] == Patch(old(a[..]), off, Put(e, w, v))
  {
    CopyInto(a, off, Put(e, w, v));
  }

  /** Go's copy(a[off:], x) for a source that fits. */
  method CopyInto(a: array<Byte>, off: nat, x: seq<Byte>)
    requires off + |x| <= a.Length
    modifies a
    ensures a[..] == Patch(old(a[..]), off, x)
  {
    for i := 0 to |x|
      invariant forall j :: 0 <= j < a.Length ==> a[j] == if off <= j < off + i then x[j - off] else old(a[j])
    {
      a[off + i] := x[i];
    }
  }
}
