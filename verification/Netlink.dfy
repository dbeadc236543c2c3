/** Netlink route attributes: the parser, the encoder of its tests, and what ties them together.
    An attribute is a 16-bit length, a 16-bit type and a payload, padded to four bytes. */
module Netlink {
  import opened Words

  const RTATTR_LEN := 4
  const MAX_INT: nat := 0x7fff_ffff_ffff_ffff

  datatype Attr = Attr(typ: U16, data: seq<Byte>)

  datatype ParseError =
    | BadLength(length: nat)
    | ExceedsData(length: nat, remaining: nat)
    | ExceedsAligned(step: nat, remaining: nat)

  /** (length + 3) & ^3 on a 64-bit int. */
  function NlAlign(length: nat): nat
    requires length + 3 <= MAX_INT
  {
    And(length + 3, B64 - 4)
  }

  /** The bit trick is the least multiple of four not below the length. */
  lemma NlAlignIsLeast(length: nat, multiple: nat)
    requires length + 3 <= MAX_INT
    ensures NlAlign(length) % 4 == 0 && length <= NlAlign(length) < length + 4
    ensures multiple % 4 == 0 && length <= multiple ==> NlAlign(length) <= multiple
  {
    hide And;
    AndClearLowTwo(length + 3);
    var x := length + 3;
    assert NlAlign(length) == x - x % 4;
  }

  // ---- the parser ----

  /** Why the attribute at the front of data cannot be taken, if it cannot. */
  function Defect(e: Endian, data: seq<Byte>): (d: Option<ParseError>)
    requires |data| >= RTATTR_LEN
    ensures d == None ==> RTATTR_LEN <= LoadU16(e, data, 0) <= NlAlign(LoadU16(e, data, 0)) <= |data|
  {
    var length := LoadU16(e, data, 0);
    NlAlignIsLeast(length, 0);
    if length < RTATTR_LEN then Some(BadLength(length))
    else if length > |data| then Some(ExceedsData(length, |data|))
    else if NlAlign(length) > |data| then Some(ExceedsAligned(NlAlign(length), |data|))
    else None
  }

  function Parse(e: Endian, data: seq<Byte>): Result<seq<Attr>, ParseError> {
    if |data| < RTATTR_LEN then Ok([])
    else match Defect(e, data)
      case Some(error) => Err(error)
      case None =>
        var length := LoadU16(e, data, 0);
        Prepend([Attr(LoadU16(e, data, 2), data[RTATTR_LEN..length])], Parse(e, data[NlAlign(length)..]))
  }

  /** What is wrong with the front of data, in numbers: n is the length word, step that length rounded
      up to a multiple of four. */
  predicate WrongWith(e: Endian, data: seq<Byte>, error: ParseError)
    requires |data| >= 4
  {
    var n := Get(e, data[0..2]);
    var step := (n + 3) / 4 * 4;
    match error
    case BadLength(length) => length == n < 4
    case ExceedsData(length, remaining) => length == n > remaining == |data|
    case ExceedsAligned(aligned, remaining) => 4 <= n <= remaining == |data| < aligned == step
  }

  /** One turn of the parser on the bytes: at most three bytes end it; a wrong front is its error; and
      otherwise the type is the second word, the payload what follows up to the length, and parsing
      goes on at the next multiple of four. */
  lemma ParseByBytes(e: Endian, data: seq<Byte>)
    ensures |data| < 4 ==> Parse(e, data) == Ok([])
    ensures |data| >= 4 ==>
              var n := Get(e, data[0..2]);
              var step := (n + 3) / 4 * 4;
              if 4 <= n && step <= |data| then
                Get(e, data[2..4]) < 0x1_0000
                && Parse(e, data) == Prepend([Attr(Get(e, data[2..4]), data[4..n])], Parse(e, data[step..]))
              else Parse(e, data).Err? && forall x :: Parse(e, data) == Err(x) <==> WrongWith(e, data, x)
  {
    if |data| >= 4 {
      SpanValues();
      GetBound(e, data[0..2]);
      GetBound(e, data[2..4]);
      var n := Get(e, data[0..2]);
      assert n == LoadU16(e, data, 0) && Get(e, data[2..4]) == LoadU16(e, data, 2);
      StepIs(n);
      ParseOnce(e, data);
      forall x ensures Defect(e, data) == Some(x) <==> WrongWith(e, data, x) {
        DefectIs(e, data, x);
      }
      hide And, Get, NlAlign, LoadU16, Parse, WrongWith;
    }
  }

  lemma ParseOnce(e: Endian, data: seq<Byte>)
    requires |data| >= 4
    ensures match Defect(e, data)
            case Some(x) => Parse(e, data) == Err(x)
            case None =>
              var n := LoadU16(e, data, 0);
              Parse(e, data) == Prepend([Attr(LoadU16(e, data, 2), data[4..n])], Parse(e, data[NlAlign(n)..]))
  {
    hide LoadU16, And, NlAlign;
  }

  lemma StepIs(n: nat)
    requires n + 3 <= MAX_INT
    ensures NlAlign(n) == (n + 3) / 4 * 4
  {
    hide And;
    AndClearLowTwo(n + 3);
  }

  lemma DefectIs(e: Endian, data: seq<Byte>, error: ParseError)
    requires |data| >= RTATTR_LEN
    ensures Defect(e, data) == Some(error) <==> WrongWith(e, data, error)
  {
    SpanValues();
    GetBound(e, data[0..2]);
    StepIs(Get(e, data[0..2]));
    assert Get(e, data[0..2]) == LoadU16(e, data, 0);
    hide And, Get, NlAlign;
  }

  /** parseRouteAttrs */
  method ParseRouteAttrs(e: Endian, input: seq<Byte>) returns (r: Result<seq<Attr>, ParseError>)
    ensures r == Parse(e, input)
  {
    var data := input;
    var attrs: seq<Attr> := [];
    assert Parse(e, data).Ok? ==> attrs + Parse(e, data).value == Parse(e, data).value;
    while |data| >= RTATTR_LEN
      invariant Parse(e, input) == Prepend(attrs, Parse(e, data))
      decreases |data|
    {
      var length := LoadU16(e, data, 0);
      var attrType := LoadU16(e, data, 2);
      if length < RTATTR_LEN {
        return Err(BadLength(length));
      }
      if length > |data| {
        return Err(ExceedsData(length, |data|));
      }
      var payload := data[RTATTR_LEN..length];
      ghost var before := attrs;
      attrs := attrs + [Attr(attrType, payload)];
      var step := NlAlign(length);
      if step > |data| {
        return Err(ExceedsAligned(step, |data|));
      }
      NlAlignIsLeast(length, 0);
      assert Defect(e, data) == None;
      ghost var rest := Parse(e, data[step..]);
      assert Parse(e, data) == Prepend([Attr(attrType, payload)], rest);
      assert rest.Ok? ==> before + ([Attr(attrType, payload)] + rest.value) == attrs + rest.value;
      data := data[step..];
    }
    assert attrs + [] == attrs;
    return Ok(attrs);
  }

  // ---- the wire grammar ----

  /** One attribute on the wire, with the padding bytes that follow it. */
  datatype Item = Item(attr: Attr, pad: seq<Byte>)

  predicate Fits(a: Attr) { RTATTR_LEN + |a.data| < B16 }

  predicate WellFormed(it: Item) {
    Fits(it.attr) && |it.pad| == NlAlign(RTATTR_LEN + |it.attr.data|) - (RTATTR_LEN + |it.attr.data|)
  }

  predicate AllWellFormed(items: seq<Item>) {
    forall i :: 0 <= i < |items| ==> WellFormed(items[i])
  }

  function RenderItem(e: Endian, it: Item): (b: seq<Byte>)
    ensures |b| == RTATTR_LEN + |it.attr.data| + |it.pad|
  {
    Put(e, 2, RTATTR_LEN + |it.attr.data|) + Put(e, 2, it.attr.typ) + it.attr.data + it.pad
  }

  function Render(e: Endian, items: seq<Item>): seq<Byte> {
    if items == [] then [] else RenderItem(e, items[0]) + Render(e, items[1..])
  }

  function AttrsOf(items: seq<Item>): (r: seq<Attr>)
    ensures |r| == |items|
  {
    seq(|items|, i requires 0 <= i < |items| => items[i].attr)
  }

  lemma HeaderOfItem(e: Endian, it: Item, rest: seq<Byte>)
    requires Fits(it.attr)
    ensures var b := RenderItem(e, it) + rest; var n := RTATTR_LEN + |it.attr.data|;
            && LoadU16(e, b, 0) == n && LoadU16(e, b, 2) == it.attr.typ
            && b[RTATTR_LEN..n] == it.attr.data && b[n..n + |it.pad|] == it.pad && b[n + |it.pad|..] == rest
  {
    hide Get, Put;
    var b := RenderItem(e, it) + rest;
    SpanValues();
    assert b[0..2] == Put(e, 2, RTATTR_LEN + |it.attr.data|);
    assert b[2..4] == Put(e, 2, it.attr.typ);
    GetPut(e, 2, RTATTR_LEN + |it.attr.data|);
    GetPut(e, 2, it.attr.typ);
  }

  /** An item on the wire, byte by byte, and when it is well-formed: its length fits 16 bits and its
      padding reaches the next multiple of four. */
  lemma ItemBytes(e: Endian, it: Item)
    ensures var b, n := RenderItem(e, it), 4 + |it.attr.data|;
            && b[0..2] == Put(e, 2, n) && b[2..4] == Put(e, 2, it.attr.typ)
            && b[4..n] == it.attr.data && b[n..] == it.pad
    ensures var n := 4 + |it.attr.data|;
            WellFormed(it) <==> n < 0x1_0000 && |it.pad| < 4 && (n + |it.pad|) % 4 == 0
  {
    hide Put, And, NlAlign;
    var n := 4 + |it.attr.data|;
    if n < 0x1_0000 {
      StepIs(n);
    }
  }

  /** The parser takes a well-formed item off the front of whatever follows it. */
  lemma ParseItem(e: Endian, it: Item, rest: seq<Byte>)
    requires WellFormed(it)
    ensures Parse(e, RenderItem(e, it) + rest) == Prepend([it.attr], Parse(e, rest))
  {
    hide Get, Put, And, RenderItem;
    NlAlignIsLeast(RTATTR_LEN + |it.attr.data|, 0);
    HeaderOfItem(e, it, rest);
  }

  lemma {:induction false} ParseRendered(e: Endian, items: seq<Item>, rest: seq<Byte>)
    requires AllWellFormed(items)
    ensures Parse(e, Render(e, items) + rest) == Prepend(AttrsOf(items), Parse(e, rest))
  {
    hide RenderItem, Parse;
    if items == [] {
      assert Render(e, items) + rest == rest;
      assert Parse(e, rest).Ok? ==> AttrsOf(items) + Parse(e, rest).value == Parse(e, rest).value;
    } else {
      ParseRendered(e, items[1..], rest);
      ParseItem(e, items[0], Render(e, items[1..]) + rest);
      assert Render(e, items) + rest == RenderItem(e, items[0]) + (Render(e, items[1..]) + rest);
      assert AttrsOf(items) == [items[0].attr] + AttrsOf(items[1..]);
      var r := Parse(e, rest);
      assert r.Ok? ==> [items[0].attr] + (AttrsOf(items[1..]) + r.value) == AttrsOf(items) + r.value;
    }
  }

  /** The front of data read as an item, when nothing is wrong with it. */
  function FrontItem(e: Endian, data: seq<Byte>): Item
    requires |data| >= RTATTR_LEN && Defect(e, data) == None
  {
    var n := LoadU16(e, data, 0);
    Item(Attr(LoadU16(e, data, 2), data[RTATTR_LEN..n]), data[n..NlAlign(n)])
  }

  lemma FrontItemRenders(e: Endian, data: seq<Byte>)
    requires |data| >= RTATTR_LEN && Defect(e, data) == None
    ensures var n := LoadU16(e, data, 0);
            WellFormed(FrontItem(e, data)) && data == RenderItem(e, FrontItem(e, data)) + data[NlAlign(n)..]
  {
    hide Get, Put, And;
    var n := LoadU16(e, data, 0);
    NlAlignIsLeast(n, 0);
    PutGet(e, data[0..2]);
    PutGet(e, data[2..4]);
    assert data == data[0..2] + data[2..4] + data[4..n] + data[n..NlAlign(n)] + data[NlAlign(n)..];
  }

  /** Splits any input into the longest run of whole items and what stops the parser. */
  lemma {:induction false} Decompose(e: Endian, data: seq<Byte>) returns (items: seq<Item>, rest: seq<Byte>)
    ensures AllWellFormed(items) && data == Render(e, items) + rest
    ensures |rest| >= RTATTR_LEN ==> Defect(e, rest).Some?
    decreases |data|
  {
    hide Get, Put, And, RenderItem, WellFormed;
    if |data| < RTATTR_LEN || Defect(e, data).Some? {
      items, rest := [], data;
      assert data == Render(e, []) + data;
    } else {
      var front, n := FrontItem(e, data), LoadU16(e, data, 0);
      FrontItemRenders(e, data);
      var more;
      more, rest := Decompose(e, data[NlAlign(n)..]);
      items := [front] + more;
      assert items[1..] == more;
      assert Render(e, items) + rest == RenderItem(e, front) + (Render(e, more) + rest);
    }
  }

  /** What the parser stops at decides between success and each error. */
  function Ending(e: Endian, rest: seq<Byte>): Result<seq<Attr>, ParseError>
    requires |rest| >= RTATTR_LEN ==> Defect(e, rest).Some?
  {
    if |rest| < RTATTR_LEN then Ok([]) else Err(Defect(e, rest).value)
  }

  lemma ParseOfSplit(e: Endian, items: seq<Item>, rest: seq<Byte>)
    requires AllWellFormed(items) && (|rest| >= RTATTR_LEN ==> Defect(e, rest).Some?)
    ensures Parse(e, Render(e, items) + rest) == Prepend(AttrsOf(items), Ending(e, rest))
  {
    ParseRendered(e, items, rest);
  }

  /** The accepted language: whole, fully padded items and at most three stray bytes. */
  lemma AcceptsExactly(e: Endian, data: seq<Byte>, attrs: seq<Attr>)
    ensures Parse(e, data) == Ok(attrs)
       <==> exists items, tail :: AllWellFormed(items) && |tail| < RTATTR_LEN
              && data == Render(e, items) + tail && attrs == AttrsOf(items)
  {
    hide Parse, Render, AttrsOf, AllWellFormed;
    if Parse(e, data) == Ok(attrs) {
      var items, rest := Decompose(e, data);
      ParseOfSplit(e, items, rest);
      assert attrs == AttrsOf(items) + [];
    }
    forall items, tail |
        AllWellFormed(items) && |tail| < RTATTR_LEN && data == Render(e, items) + tail && attrs == AttrsOf(items)
      ensures Parse(e, data) == Ok(attrs)
    {
      ParseOfSplit(e, items, tail);
      assert AttrsOf(items) + [] == attrs;
    }
  }

  /** Each error is reported exactly when whole items lead up to a front with that defect. */
  lemma RejectsExactly(e: Endian, data: seq<Byte>, error: ParseError)
    ensures Parse(e, data) == Err(error)
       <==> exists items, rest :: AllWellFormed(items) && |rest| >= RTATTR_LEN
              && data == Render(e, items) + rest && WrongWith(e, rest, error)
  {
    hide Parse, Render, AttrsOf, AllWellFormed, Defect, WrongWith;
    forall rest: seq<Byte> | |rest| >= RTATTR_LEN
      ensures Defect(e, rest) == Some(error) <==> WrongWith(e, rest, error)
    {
      DefectIs(e, rest, error);
    }
    if Parse(e, data) == Err(error) {
      var items, rest := Decompose(e, data);
      ParseOfSplit(e, items, rest);
    }
    forall items, rest |
        AllWellFormed(items) && |rest| >= RTATTR_LEN && data == Render(e, items) + rest
        && Defect(e, rest) == Some(error)
      ensures Parse(e, data) == Err(error)
    {
      ParseOfSplit(e, items, rest);
    }
  }

  /** The decomposition of an accepted input is unique. */
  lemma {:induction false} DecompositionUnique(e: Endian, a: seq<Item>, s: seq<Byte>, b: seq<Item>, t: seq<Byte>)
    requires AllWellFormed(a) && AllWellFormed(b) && |s| < RTATTR_LEN && |t| < RTATTR_LEN
    requires Render(e, a) + s == Render(e, b) + t
    ensures a == b && s == t
  {
    hide RenderItem, WellFormed, Get, Put, And;
    if a == [] || b == [] {
      assert a != [] ==> |Render(e, a)| >= RTATTR_LEN;
      assert b != [] ==> |Render(e, b)| >= RTATTR_LEN;
      assert Render(e, []) + s == s && Render(e, []) + t == t;
    } else {
      var restA, restB := Render(e, a[1..]) + s, Render(e, b[1..]) + t;
      assert Render(e, a) + s == RenderItem(e, a[0]) + restA;
      assert Render(e, b) + t == RenderItem(e, b[0]) + restB;
      FrontIsDetermined(e, a[0], restA, b[0], restB);
      DecompositionUnique(e, a[1..], s, b[1..], t);
      assert a == [a[0]] + a[1..] && b == [b[0]] + b[1..];
    }
  }

  lemma FrontIsDetermined(e: Endian, x: Item, restX: seq<Byte>, y: Item, restY: seq<Byte>)
    requires WellFormed(x) && WellFormed(y) && RenderItem(e, x) + restX == RenderItem(e, y) + restY
    ensures x == y && restX == restY
  {
    hide RenderItem, Get, Put, And;
    HeaderOfItem(e, x, restX);
    HeaderOfItem(e, y, restY);
  }

  // ---- the encoder ----

  predicate Sliceable(a: Attr) { |a.data| + RTATTR_LEN + 3 <= MAX_INT }

  /** The item appendRouteAttr writes: zero padding. */
  function ZeroPadded(a: Attr): Item
    requires Sliceable(a)
  {
    NlAlignIsLeast(RTATTR_LEN + |a.data|, 0);
    Item(a, Zeros(NlAlign(RTATTR_LEN + |a.data|) - (RTATTR_LEN + |a.data|)))
  }

  ghost predicate AllSliceable(attrs: seq<Attr>) {
    forall i :: 0 <= i < |attrs| ==> Sliceable(attrs[i])
  }

  function Encode(e: Endian, attrs: seq<Attr>): seq<Byte>
    requires AllSliceable(attrs)
  {
    if attrs == [] then [] else RenderItem(e, ZeroPadded(attrs[0])) + Encode(e, attrs[1..])
  }

  /** The bytes appended: length and type words, the payload, and zeros to a multiple of four. */
  ghost predicate Appended(e: Endian, dst: seq<Byte>, attrType: U16, payload: seq<Byte>, r: seq<Byte>) {
    var n := 4 + |payload|;
    && |r| == |dst| + (n + 3) / 4 * 4 && r[..|dst|] == dst
    && r[|dst|..|dst| + 2] == Put(e, 2, n) && r[|dst| + 2..|dst| + 4] == Put(e, 2, attrType)
    && r[|dst| + 4..|dst| + n] == payload
    && forall i :: |dst| + n <= i < |r| ==> r[i] == 0
  }

  lemma AppendedIs(e: Endian, dst: seq<Byte>, attrType: U16, payload: seq<Byte>)
    requires Sliceable(Attr(attrType, payload))
    ensures Appended(e, dst, attrType, payload, dst + RenderItem(e, ZeroPadded(Attr(attrType, payload))))
  {
    var it := ZeroPadded(Attr(attrType, payload));
    StepIs(4 + |payload|);
    ItemBytes(e, it);
    hide Put, And, NlAlign, RenderItem;
    var b, r, d := RenderItem(e, it), dst + RenderItem(e, it), |dst|;
    var n := 4 + |payload|;
    assert r[d..d + 2] == b[0..2] && r[d + 2..d + 4] == b[2..4] && r[d + 4..d + n] == b[4..n] && r[d + n..] == b[n..];
    forall i | d + n <= i < |r| ensures r[i] == 0 {
      assert r[i] == r[d + n..][i - d - n];
    }
  }

  /** Put keeps the low 16 bits, as uint16(length) does. */
  method AppendRouteAttr(e: Endian, dst: seq<Byte>, attrType: U16, payload: seq<Byte>) returns (r: seq<Byte>)
    requires Sliceable(Attr(attrType, payload))
    ensures r == dst + RenderItem(e, ZeroPadded(Attr(attrType, payload)))
    ensures Appended(e, dst, attrType, payload, r)
  {
    AppendedIs(e, dst, attrType, payload);
    hide Appended;
    var length := RTATTR_LEN + |payload|;
    var aligned := NlAlign(length);
    NlAlignIsLeast(length, 0);
    var start := |dst|;
    r := dst;
    for i := 0 to aligned
      invariant r == dst + Zeros(i)
    {
      r := r + [0];
    }
    hide Put, And;
    r := Patch(r, start, Put(e, 2, length));
    r := Patch(r, start + 2, Put(e, 2, attrType));
    r := Patch(r, start + RTATTR_LEN, payload);
    FillIn(dst, Zeros(aligned), Put(e, 2, length), Put(e, 2, attrType), payload);
    assert Zeros(aligned)[length..] == Zeros(aligned - length);
  }

  lemma FillIn(dst: seq<Byte>, z: seq<Byte>, a: seq<Byte>, b: seq<Byte>, p: seq<Byte>)
    requires |a| == |b| == 2 && 4 + |p| <= |z|
    ensures Patch(Patch(Patch(dst + z, |dst|, a), |dst| + 2, b), |dst| + 4, p) == dst + (a + b + p + z[4 + |p|..])
  {
    var s := |dst|;
    var r1 := Patch(dst + z, s, a);
    assert r1 == dst + a + z[2..];
    var r2 := Patch(r1, s + 2, b);
    assert r2 == dst + a + b + z[4..];
    assert Patch(r2, s + 4, p) == dst + a + b + p + z[4 + |p|..];
  }

  /** Appending one attribute after another builds the encoding of the list. */
  lemma {:induction false} EncodeSnoc(e: Endian, attrs: seq<Attr>, a: Attr)
    requires AllSliceable(attrs) && Sliceable(a)
    ensures AllSliceable(attrs + [a])
    ensures Encode(e, attrs + [a]) == Encode(e, attrs) + RenderItem(e, ZeroPadded(a))
  {
    hide RenderItem, ZeroPadded;
    assert forall i :: 0 <= i < |attrs| + 1 ==> (attrs + [a])[i] == if i < |attrs| then attrs[i] else a;
    if attrs != [] {
      EncodeSnoc(e, attrs[1..], a);
      assert (attrs + [a])[1..] == attrs[1..] + [a];
    } else {
      assert attrs + [a] == [a];
      assert Encode(e, [a]) == RenderItem(e, ZeroPadded(a)) + Encode(e, []);
    }
  }

  // ---- parser and encoder together ----

  predicate AllFit(attrs: seq<Attr>) {
    forall a :: a in attrs ==> |a.data| <= 65531
  }

  lemma ZeroPaddedIs(a: Attr)
    requires Sliceable(a)
    ensures ZeroPadded(a).attr == a && (|a.data| <= 65531 ==> WellFormed(ZeroPadded(a)))
  {
    hide And, NlAlign;
    NlAlignIsLeast(RTATTR_LEN + |a.data|, 0);
  }

  lemma EncodeIsRender(e: Endian, attrs: seq<Attr>) returns (items: seq<Item>)
    requires AllSliceable(attrs)
    ensures items == seq(|attrs|, i requires 0 <= i < |attrs| => ZeroPadded(attrs[i]))
    ensures Encode(e, attrs) == Render(e, items) && AttrsOf(items) == attrs
    ensures AllFit(attrs) ==> AllWellFormed(items)
  {
    hide And, RenderItem, NlAlign, ZeroPadded, WellFormed, Fits;
    items := seq(|attrs|, i requires 0 <= i < |attrs| => ZeroPadded(attrs[i]));
    forall i | 0 <= i < |attrs|
      ensures ZeroPadded(attrs[i]).attr == attrs[i]
           && (|attrs[i].data| <= 65531 ==> WellFormed(ZeroPadded(attrs[i])))
    {
      ZeroPaddedIs(attrs[i]);
    }
    if attrs != [] {
      var more := EncodeIsRender(e, attrs[1..]);
      assert items[1..] == more;
    }
  }

  /** An attribute whose length overflows its 16-bit field does not come back. */
  lemma OversizedNeverParsesBack(e: Endian, a: Attr, rest: seq<Byte>, more: seq<Attr>)
    requires Sliceable(a) && !Fits(a)
    ensures Parse(e, RenderItem(e, ZeroPadded(a)) + rest) != Ok([a] + more)
  {
    hide And, Get;
    var data := RenderItem(e, ZeroPadded(a)) + rest;
    var r := Parse(e, data);
    if r.Ok? {
      assert |r.value[0].data| == LoadU16(e, data, 0) - RTATTR_LEN < |a.data|;
      assert ([a] + more)[0] == a;
    }
  }

  /** Parsing undoes printing exactly for the lists whose payloads are at most 65531 bytes. */
  lemma {:induction false} RoundTripIff(e: Endian, attrs: seq<Attr>)
    requires AllSliceable(attrs)
    ensures Parse(e, Encode(e, attrs)) == Ok(attrs) <==> AllFit(attrs)
  {
    hide And, RenderItem, Parse, ZeroPadded;
    if attrs == [] {
      EmptyParses(e);
    } else {
      var rest := Encode(e, attrs[1..]);
      assert attrs == [attrs[0]] + attrs[1..];
      if Fits(attrs[0]) {
        ZeroPaddedFits(attrs[0]);
        ParseItem(e, ZeroPadded(attrs[0]), rest);
        RoundTripIff(e, attrs[1..]);
        var r := Parse(e, rest);
        assert r.Ok? && [attrs[0]] + r.value == attrs ==> r.value == ([attrs[0]] + r.value)[1..] == attrs[1..];
        assert AllFit(attrs) <==> AllFit(attrs[1..]);
      } else {
        OversizedNeverParsesBack(e, attrs[0], rest, attrs[1..]);
      }
    }
  }

  lemma EmptyParses(e: Endian)
    ensures Parse(e, []) == Ok([])
  {}

  lemma ZeroPaddedFits(a: Attr)
    requires Fits(a)
    ensures Sliceable(a) && WellFormed(ZeroPadded(a)) && ZeroPadded(a).attr == a
  {}

  /** Printing undoes parsing up to padding bytes and the stray tail: the accepted input and the
      re-encoding of its attributes are renderings of the same items, padded differently. */
  lemma ReencodeAgrees(e: Endian, data: seq<Byte>) returns (items: seq<Item>, blank: seq<Item>, tail: seq<Byte>)
    requires Parse(e, data).Ok?
    ensures var attrs := Parse(e, data).value;
            && AllSliceable(attrs) && data == Render(e, items) + tail && |tail| < RTATTR_LEN
            && Encode(e, attrs) == Render(e, blank) && |Encode(e, attrs)| + |tail| == |data|
            && |items| == |blank| == |attrs|
            && forall i :: 0 <= i < |items| ==>
                 items[i].attr == blank[i].attr == attrs[i] && |items[i].pad| == |blank[i].pad|
                 && blank[i].pad == Zeros(|items[i].pad|)
  {
    hide Parse, Render, And, RenderItem;
    items, tail := Decompose(e, data);
    ParseOfSplit(e, items, tail);
    var attrs := Parse(e, data).value;
    assert attrs == AttrsOf(items) + [] == AttrsOf(items);
    forall i | 0 <= i < |attrs| ensures Sliceable(attrs[i]) {
      assert WellFormed(items[i]);
    }
    blank := EncodeIsRender(e, attrs);
    forall i | 0 <= i < |items| ensures |items[i].pad| == |blank[i].pad| && blank[i].pad == Zeros(|items[i].pad|) {
      assert WellFormed(items[i]);
    }
    SameShapeSameLength(e, items, blank);
  }

  lemma {:induction false} SameShapeSameLength(e: Endian, a: seq<Item>, b: seq<Item>)
    requires |a| == |b|
    requires forall i :: 0 <= i < |a| ==> a[i].attr == b[i].attr && |a[i].pad| == |b[i].pad|
    ensures |Render(e, a)| == |Render(e, b)|
  {
    hide RenderItem;
    if a != [] {
      SameShapeSameLength(e, a[1..], b[1..]);
    }
  }

  // ---- fixed headers ----

  const IFINFO_LEN := 16
  const IFADDR_LEN := 8
  const RTMSG_LEN := 12

  datatype IfInfo = IfInfo(family: Byte, typ: U16, index: I32, flags: U32, change: U32)

  datatype IfAddr = IfAddr(family: Byte, prefixLen: Byte, flags: Byte, scope: Byte, index: U32)

  datatype RtMsg = RtMsg(family: Byte, dstLen: Byte, srcLen: Byte, tos: Byte, table: Byte, protocol: Byte,
                         scope: Byte, typ: Byte, flags: U32)

  /** An error carries the length of the message that was too short. */
  function ParseIfInfo(e: Endian, data: seq<Byte>): Result<IfInfo, nat> {
    if |data| < IFINFO_LEN then Err(|data|)
    else Ok(IfInfo(data[0], LoadU16(e, data, 2), U32ToI32(LoadU32(e, data, 4)), LoadU32(e, data, 8),
                   LoadU32(e, data, 12)))
  }

  function ParseIfAddr(e: Endian, data: seq<Byte>): Result<IfAddr, nat> {
    if |data| < IFADDR_LEN then Err(|data|)
    else Ok(IfAddr(data[0], data[1], data[2], data[3], LoadU32(e, data, 4)))
  }

  function ParseRtMsg(e: Endian, data: seq<Byte>): Result<RtMsg, nat> {
    if |data| < RTMSG_LEN then Err(|data|)
    else Ok(RtMsg(data[0], data[1], data[2], data[3], data[4], data[5], data[6], data[7], LoadU32(e, data, 8)))
  }

  lemma IfInfoParses(e: Endian, h: IfInfo, b: seq<Byte>, rest: seq<Byte>)
    requires b == [h.family, 0] + Put(e, 2, h.typ) + Put(e, 4, I32ToU32(h.index))
                  + Put(e, 4, h.flags) + Put(e, 4, h.change)
    ensures ParseIfInfo(e, b + rest) == Ok(h)
  {
    hide Put, Get;
    SpanValues();
    GetPut(e, 2, h.typ);
    GetPut(e, 4, I32ToU32(h.index));
    GetPut(e, 4, h.flags);
    GetPut(e, 4, h.change);
    var m := b + rest;
    assert m[0] == h.family && m[2..4] == Put(e, 2, h.typ) && m[4..8] == Put(e, 4, I32ToU32(h.index));
    assert m[8..12] == Put(e, 4, h.flags) && m[12..16] == Put(e, 4, h.change);
  }

  method EncodeIfInfo(e: Endian, h: IfInfo) returns (b: seq<Byte>)
    ensures |b| == IFINFO_LEN
    ensures forall rest: seq<Byte> :: ParseIfInfo(e, b + rest) == Ok(h)
    ensures b == [h.family, 0] + Put(e, 2, h.typ)
                 + Put(e, 4, if h.index < 0 then h.index + 0x1_0000_0000 else h.index)
                 + Put(e, 4, h.flags) + Put(e, 4, h.change)
  {
    hide Put, Get, ParseIfInfo;
    var data := new Byte[IFINFO_LEN](_ => 0);
    data[0] := h.family;
    ghost var start := data[..];
    PutUint(data, 2, e, 2, h.typ);
    PutUint(data, 4, e, 4, I32ToU32(h.index));
    PutUint(data, 8, e, 4, h.flags);
    PutUint(data, 12, e, 4, h.change);
    b := data[..];
    FieldsStay(start, Put(e, 2, h.typ), Put(e, 4, I32ToU32(h.index)), Put(e, 4, h.flags), Put(e, 4, h.change));
    assert start[..2] == [h.family, 0];
    ConversionsAre(h.index, 0, 0, 0);
    forall rest: seq<Byte> ensures ParseIfInfo(e, b + rest) == Ok(h) {
      IfInfoParses(e, h, b, rest);
    }
  }

  lemma FieldsStay(b: seq<Byte>, x: seq<Byte>, y: seq<Byte>, z: seq<Byte>, w: seq<Byte>)
    requires |b| == 16 && |x| == 2 && |y| == |z| == |w| == 4
    ensures var r := Patch(Patch(Patch(Patch(b, 2, x), 4, y), 8, z), 12, w);
            r == b[..2] + x + y + z + w
  {
    var r1 := Patch(b, 2, x);
    assert r1 == b[..2] + x + b[4..];
    var r2 := Patch(r1, 4, y);
    assert r2 == b[..2] + x + y + b[8..];
    var r3 := Patch(r2, 8, z);
    assert r3 == b[..2] + x + y + z + b[12..];
  }

  method EncodeIfAddr(e: Endian, h: IfAddr) returns (b: seq<Byte>)
    ensures |b| == IFADDR_LEN
    ensures forall rest: seq<Byte> :: ParseIfAddr(e, b + rest) == Ok(h)
    ensures b == [h.family, h.prefixLen, h.flags, h.scope] + Put(e, 4, h.index)
  {
    hide Put, Get;
    var data := new Byte[IFADDR_LEN](_ => 0);
    data[0] := h.family;
    data[1] := h.prefixLen;
    data[2] := h.flags;
    data[3] := h.scope;
    PutUint(data, 4, e, 4, h.index);
    b := data[..];
    SpanValues();
    GetPut(e, 4, h.index);
    forall rest: seq<Byte> ensures ParseIfAddr(e, b + rest) == Ok(h) {
      assert (b + rest)[4..8] == Put(e, 4, h.index);
    }
  }

  lemma RtMsgParses(e: Endian, h: RtMsg, b: seq<Byte>, rest: seq<Byte>)
    requires b == [h.family, h.dstLen, 0, 0, h.table, h.protocol, h.scope, h.typ] + Put(e, 4, h.flags)
    ensures ParseRtMsg(e, b + rest) == Ok(h.(srcLen := 0, tos := 0))
  {
    hide Put, Get;
    SpanValues();
    GetPut(e, 4, h.flags);
    assert (b + rest)[8..12] == Put(e, 4, h.flags);
  }

  /** The encoder leaves source length and type of service zero. */
  method EncodeRtMsg(e: Endian, h: RtMsg) returns (b: seq<Byte>)
    ensures |b| == RTMSG_LEN
    ensures forall rest: seq<Byte> :: ParseRtMsg(e, b + rest) == Ok(h.(srcLen := 0, tos := 0))
    ensures b == [h.family, h.dstLen, 0, 0, h.table, h.protocol, h.scope, h.typ] + Put(e, 4, h.flags)
  {
    hide Put, Get, ParseRtMsg;
    var data := new Byte[RTMSG_LEN](_ => 0);
    data[0] := h.family;
    data[1] := h.dstLen;
    data[4] := h.table;
    data[5] := h.protocol;
    data[6] := h.scope;
    data[7] := h.typ;
    PutUint(data, 8, e, 4, h.flags);
    b := data[..];
    forall rest: seq<Byte> ensures ParseRtMsg(e, b + rest) == Ok(h.(srcLen := 0, tos := 0)) {
      RtMsgParses(e, h, b, rest);
    }
  }
}
