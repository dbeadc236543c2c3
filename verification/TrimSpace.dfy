/** Go's strings.TrimSpace on raw bytes: the UTF-8 encodings of Unicode white space. */
module TrimSpace {
  import opened Words

  predicate IsSpaceRune(r: seq<Byte>) {
    || (|r| == 1 && (9 <= r[0] <= 13 || r[0] == 32))
    || (|r| == 2 && r[0] == 0xc2 && (r[1] == 0x85 || r[1] == 0xa0))
    || (|r| == 3 && r[0] == 0xe1 && r[1] == 0x9a && r[2] == 0x80)
    || (|r| == 3 && r[0] == 0xe2 && r[1] == 0x80
        && (0x80 <= r[2] <= 0x8a || r[2] == 0xa8 || r[2] == 0xa9 || r[2] == 0xaf))
    || (|r| == 3 && r[0] == 0xe2 && r[1] == 0x81 && r[2] == 0x9f)
    || (|r| == 3 && r[0] == 0xe3 && r[1] == 0x80 && r[2] == 0x80)
  }

  /** The UTF-8 encoding of a code point of up to three bytes. */
  function Utf8(cp: nat): seq<Byte>
    requires cp < 0x1_0000
  {
    if cp < 0x80 then [cp]
    else if cp < 0x800 then [0xc0 + cp / 64, 0x80 + cp % 64]
    else [0xe0 + cp / 0x1000, 0x80 + cp / 64 % 64, 0x80 + cp % 64]
  }

  /** The code points with the property White_Space of Unicode. */
  predicate IsWhiteSpace(cp: nat) {
    || 9 <= cp <= 13 || 0x2000 <= cp <= 0x200a
    || cp in {0x20, 0x85, 0xa0, 0x1680, 0x2028, 0x2029, 0x202f, 0x205f, 0x3000}
  }

  /** The code point a byte string of one, two or three bytes would encode. */
  function CodePoint(r: seq<Byte>): int {
    var a: int, b: int, c: int := if |r| > 0 then r[0] else 0, if |r| > 1 then r[1] else 0, if |r| > 2 then r[2] else 0;
    if |r| == 1 then a
    else if |r| == 2 then (a - 0xc0) * 64 + b - 0x80
    else (a - 0xe0) * 0x1000 + (b - 0x80) * 64 + c - 0x80
  }

  lemma SpaceRuneDecodes(r: seq<Byte>)
    requires IsSpaceRune(r)
    ensures 0 <= CodePoint(r) < 0x1_0000 && IsWhiteSpace(CodePoint(r)) && Utf8(CodePoint(r)) == r
  {}

  lemma WhiteSpaceEncodes(cp: nat)
    requires cp < 0x1_0000 && IsWhiteSpace(cp)
    ensures IsSpaceRune(Utf8(cp))
  {}

  /** The byte strings trimmed are exactly the encodings of white space. */
  lemma SpaceRunesAreUnicode(r: seq<Byte>)
    ensures IsSpaceRune(r) <==> exists cp: nat :: cp < 0x1_0000 && IsWhiteSpace(cp) && r == Utf8(cp)
  {
    if IsSpaceRune(r) {
      SpaceRuneDecodes(r);
    }
    forall cp: nat | cp < 0x1_0000 && IsWhiteSpace(cp) && r == Utf8(cp) ensures IsSpaceRune(r) {
      WhiteSpaceEncodes(cp);
    }
  }

  /** Length of the white-space rune s starts with, or zero. */
  function SpaceBefore(s: seq<Byte>): (n: nat)
    ensures n <= |s| && (n > 0 ==> IsSpaceRune(s[..n]))
  {
    if |s| >= 1 && IsSpaceRune(s[..1]) then 1
    else if |s| >= 2 && IsSpaceRune(s[..2]) then 2
    else if |s| >= 3 && IsSpaceRune(s[..3]) then 3
    else 0
  }

  function SpaceAfter(s: seq<Byte>): (n: nat)
    ensures n <= |s| && (n > 0 ==> IsSpaceRune(s[|s| - n..]))
  {
    if |s| >= 1 && IsSpaceRune(s[|s| - 1..]) then 1
    else if |s| >= 2 && IsSpaceRune(s[|s| - 2..]) then 2
    else if |s| >= 3 && IsSpaceRune(s[|s| - 3..]) then 3
    else 0
  }

  function TrimLeft(s: seq<Byte>): seq<Byte>
    decreases |s|
  {
    var n := SpaceBefore(s);
    if n == 0 then s else TrimLeft(s[n..])
  }

  function TrimRight(s: seq<Byte>): seq<Byte>
    decreases |s|
  {
    var n := SpaceAfter(s);
    if n == 0 then s else TrimRight(s[..|s| - n])
  }

  function Trim(s: seq<Byte>): seq<Byte> { TrimRight(TrimLeft(s)) }

  // ---- what it means ----

  predicate AllSpaces(runes: seq<seq<Byte>>) {
    forall i :: 0 <= i < |runes| ==> IsSpaceRune(runes[i])
  }

  function Flat(runes: seq<seq<Byte>>): seq<Byte> {
    if runes == [] then [] else runes[0] + Flat(runes[1..])
  }

  lemma {:induction false} FlatSnoc(runes: seq<seq<Byte>>, r: seq<Byte>)
    ensures Flat(runes + [r]) == Flat(runes) + r
  {
    if runes == [] {
      assert [] + [r] == [r] && Flat([r]) == r + Flat([]);
    } else {
      assert (runes + [r])[1..] == runes[1..] + [r];
      FlatSnoc(runes[1..], r);
    }
  }

  lemma FlatCons(r: seq<Byte>, runes: seq<seq<Byte>>)
    ensures Flat([r] + runes) == r + Flat(runes)
  {
    assert ([r] + runes)[1..] == runes;
  }

  lemma TrimLeftDrops(s: seq<Byte>)
    ensures var n := SpaceBefore(s);
            TrimLeft(s) == if n == 0 then s else TrimLeft(s[n..])
  {
    hide SpaceBefore;
  }

  lemma {:induction false} TrimLeftStrips(s: seq<Byte>) returns (runes: seq<seq<Byte>>)
    ensures AllSpaces(runes) && s == Flat(runes) + TrimLeft(s)
    decreases |s|
  {
    TrimLeftDrops(s);
    hide IsSpaceRune, TrimLeft, SpaceBefore;
    var n := SpaceBefore(s);
    if n == 0 {
      runes := [];
    } else {
      var more := TrimLeftStrips(s[n..]);
      runes := [s[..n]] + more;
      FlatCons(s[..n], more);
      assert s == s[..n] + s[n..];
    }
  }

  lemma {:induction false} TrimRightStrips(s: seq<Byte>) returns (runes: seq<seq<Byte>>)
    ensures AllSpaces(runes) && s == TrimRight(s) + Flat(runes)
    decreases |s|
  {
    hide IsSpaceRune;
    var n := SpaceAfter(s);
    if n == 0 {
      runes := [];
    } else {
      var less := TrimRightStrips(s[..|s| - n]);
      FlatSnoc(less, s[|s| - n..]);
      runes := less + [s[|s| - n..]];
    }
  }

  /** A text that neither starts nor ends like white space. */
  predicate Solid(t: seq<Byte>) {
    t != [] && 32 < t[0] < 0x80 && 32 < t[|t| - 1] < 0x80
  }

  lemma {:induction false} TrimLeftOf(runes: seq<seq<Byte>>, t: seq<Byte>)
    requires AllSpaces(runes) && Solid(t)
    ensures forall rest: seq<Byte> :: TrimLeft(Flat(runes) + t + rest) == t + rest
  {
    forall rest: seq<Byte> ensures TrimLeft(Flat(runes) + t + rest) == t + rest {
      var s := Flat(runes) + t + rest;
      if runes == [] {
        assert s == t + rest;
      } else {
        var r := runes[0];
        assert s == r + (Flat(runes[1..]) + t + rest);
        assert s[..|r|] == r;
        RuneIsFound(s, |r|);
        TrimLeftOf(runes[1..], t);
        assert s[|r|..] == Flat(runes[1..]) + t + rest;
      }
    }
  }

  /** No white-space rune is the beginning of another ... */
  lemma RuneIsFound(s: seq<Byte>, n: nat)
    requires n <= |s| && IsSpaceRune(s[..n])
    ensures SpaceBefore(s) == n
  {
    assert s[..n][0] == s[0] == s[..1][0];
    if n >= 2 {
      assert s[..2][0] == s[0] && s[..2][1] == s[1] == s[..n][1];
    }
  }

  /** ... or its end. */
  lemma RuneIsFoundAtEnd(s: seq<Byte>, n: nat)
    requires n <= |s| && IsSpaceRune(s[|s| - n..])
    ensures SpaceAfter(s) == n
  {
    var m := |s|;
    assert s[m - n..][n - 1] == s[m - 1] == s[m - 1..][0];
    if n >= 2 {
      assert s[m - n..][n - 2] == s[m - 2] == s[m - 2..][0] && s[m - 2..][1] == s[m - 1];
    }
  }

  lemma TrimRightDrops(s: seq<Byte>, r: seq<Byte>)
    requires IsSpaceRune(r)
    ensures TrimRight(s + r) == TrimRight(s)
  {
    var all := s + r;
    assert all[|all| - |r|..] == r && all[..|all| - |r|] == s;
    hide IsSpaceRune, SpaceAfter;
    RuneIsFoundAtEnd(all, |r|);
    RuneNotEmpty(r);
  }

  lemma RuneNotEmpty(r: seq<Byte>)
    requires IsSpaceRune(r)
    ensures r != []
  {}

  lemma SolidStays(t: seq<Byte>)
    requires Solid(t)
    ensures TrimRight(t) == t
  {
    assert SpaceAfter(t) == 0;
  }

  lemma {:induction false} TrimRightOf(t: seq<Byte>, runes: seq<seq<Byte>>)
    requires AllSpaces(runes) && Solid(t)
    ensures TrimRight(t + Flat(runes)) == t
    decreases |runes|
  {
    if runes == [] {
      assert t + Flat(runes) == t;
      SolidStays(t);
    } else {
      var init, r := runes[..|runes| - 1], runes[|runes| - 1];
      assert runes == init + [r];
      assert AllSpaces(init) && IsSpaceRune(r);
      hide TrimRight, Flat, IsSpaceRune, Solid, AllSpaces;
      FlatSnoc(init, r);
      assert t + Flat(runes) == (t + Flat(init)) + r;
      TrimRightDrops(t + Flat(init), r);
      TrimRightOf(t, init);
    }
  }

  /** A chunk trims to a solid text exactly when it is that text between runs of white space. */
  lemma TrimsToIff(chunk: seq<Byte>, t: seq<Byte>)
    requires Solid(t)
    ensures Trim(chunk) == t
       <==> exists before, after :: AllSpaces(before) && AllSpaces(after) && chunk == Flat(before) + t + Flat(after)
  {
    hide TrimLeft, TrimRight, Flat, AllSpaces;
    if Trim(chunk) == t {
      var before := TrimLeftStrips(chunk);
      var after := TrimRightStrips(TrimLeft(chunk));
      assert chunk == Flat(before) + (t + Flat(after)) == Flat(before) + t + Flat(after);
    }
    forall before, after | AllSpaces(before) && AllSpaces(after) && chunk == Flat(before) + t + Flat(after)
      ensures Trim(chunk) == t
    {
      TrimLeftOf(before, t);
      TrimRightOf(t, after);
    }
  }
}
