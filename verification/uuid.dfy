/** Identifier generation and validation (`utils/uuidKits.js`). Every call of
    `Math.random` becomes an element of an input sequence and `Date.now`
    becomes a timestamp parameter. */
module Uuid {
  import opened Wrappers

  /** A value of `(Math.random() * 16) | 0`. */
  type Nibble = n: int | 0 <= n < 16
  /** A value of `Math.floor(Math.random() * 256)`. */
  type Byte = n: int | 0 <= n < 256

  /** `n.toString(16)` for a single hexadecimal digit: `0`-`9`, then `a`-`f`. */
  function HexDigit(n: Nibble): char {
    if n < 10 then ('0' as int + n) as char else ('a' as int + n - 10) as char
  }

  predicate IsLowerHex(c: char) {
    '0' <= c <= '9' || 'a' <= c <= 'f'
  }

  // ---------------------------------------------------------------------------
  // generateUUID
  // ---------------------------------------------------------------------------

  /** The version-4 layout of section 4.4 of RFC 4122 with one placeholder per
      random nibble, `xxxxxxxx-xxxx-4xxx-yxxx-xxxxxxxxxxxx`: `x` takes a nibble
      as it is, `y` takes the variant bits. */
  const Template: string := "xxxxxxxx" + "-xxxx" + "-4xxx" + "-yxxx" + "-xxxxxxxxxxxx"

  predicate IsPlaceholder(c: char) {
    c == 'x' || c == 'y'
  }

  /** How many random nibbles filling `t` consumes. */
  function Placeholders(t: string): nat {
    if t == [] then 0
    else (if IsPlaceholder(t[0]) then 1 else 0) + Placeholders(t[1..])
  }

  lemma {:induction false} PlaceholdersAppend(a: string, b: string)
    ensures Placeholders(a + b) == Placeholders(a) + Placeholders(b)
  {
    if a == [] {
      assert a + b == b;
    } else {
      assert (a + b)[1..] == a[1..] + b;
      PlaceholdersAppend(a[1..], b);
    }
  }

  predicate IsHyphenIndex(i: int) {
    i == 8 || i == 13 || i == 18 || i == 23
  }

  /** The template has one placeholder per random nibble drawn. */
  lemma TemplatePlaceholders()
    ensures Placeholders(Template) == 31
  {
    var g1, g2, g3, g4, g5 := "xxxxxxxx", "-xxxx", "-4xxx", "-yxxx", "-xxxxxxxxxxxx";
    assert Placeholders(g1) == 8 && Placeholders(g2) == 4 && Placeholders(g3) == 3;
    assert Placeholders(g4) == 4 && Placeholders(g5) == 12;
    assert Placeholders(g1 + g2) == 12 by {
      PlaceholdersAppend(g1, g2);
    }
    assert Placeholders(g1 + g2 + g3) == 15 by {
      PlaceholdersAppend(g1 + g2, g3);
    }
    assert Placeholders(g1 + g2 + g3 + g4) == 19 by {
      PlaceholdersAppend(g1 + g2 + g3, g4);
    }
    PlaceholdersAppend(g1 + g2 + g3 + g4, g5);
  }

  /** The fixed characters of the template are the four hyphens and the
      version digit at index 14, and index 19 is the `y`. */
  lemma TemplateShape()
    ensures |Template| == 36
    ensures forall i :: 0 <= i < 36 && IsHyphenIndex(i) ==> Template[i] == '-'
    ensures Template[14] == '4' && Template[19] == 'y'
    ensures forall i :: 0 <= i < 36 && !IsHyphenIndex(i) && i != 14 && i != 19 ==> Template[i] == 'x'
  {
  }

  /** `(r & 0x3) | 0x8`: the variant nibble, always 8, 9, a or b, keeping the
      two low bits of `r`. */
  function VariantNibble(r: Nibble): (v: Nibble)
    ensures 8 <= v <= 11
    ensures v % 4 == r % 4
  {
    ((r as bv8 & 3) | 8) as int
  }

  /** The digit of the variant nibble. */
  function VariantDigit(r: Nibble): (c: char)
    ensures c in "89ab" && IsLowerHex(c)
  {
    HexDigit(VariantNibble(r))
  }

  /** `t.replace(/[xy]/g, ...)`: every placeholder, left to right, is replaced
      by the hexadecimal digit of the next random nibble. */
  function Fill(t: string, rs: seq<Nibble>): (u: string)
    requires |rs| == Placeholders(t)
    ensures |u| == |t|
    ensures forall i :: 0 <= i < |t| && !IsPlaceholder(t[i]) ==> u[i] == t[i]
    ensures forall i :: 0 <= i < |t| && t[i] == 'x' ==> IsLowerHex(u[i])
    ensures forall i :: 0 <= i < |t| && t[i] == 'y' ==> u[i] in "89ab"
    decreases |t|
  {
    if t == [] then []
    else if t[0] == 'x' then [HexDigit(rs[0])] + Fill(t[1..], rs[1..])
    else if t[0] == 'y' then [VariantDigit(rs[0])] + Fill(t[1..], rs[1..])
    else [t[0]] + Fill(t[1..], rs)
  }

  /** The placeholder at index `i` of `t` takes nibble number
      `Placeholders(t[..i])`: the nibbles are used in order, one per
      placeholder. */
  lemma {:induction false} FillDrawAt(t: string, rs: seq<Nibble>, i: nat)
    requires |rs| == Placeholders(t) && i < |t| && IsPlaceholder(t[i])
    ensures Placeholders(t[..i]) < |rs|
    ensures Fill(t, rs)[i] ==
      if t[i] == 'x' then HexDigit(rs[Placeholders(t[..i])]) else VariantDigit(rs[Placeholders(t[..i])])
    decreases i
  {
    if i == 0 {
      assert t[..0] == [];
    } else {
      var p := if IsPlaceholder(t[0]) then 1 else 0;
      var j := Placeholders(t[1..][..i - 1]);
      assert Placeholders(t[..i]) == p + j by {
        PlaceholdersPrefixStep(t, i);
      }
      assert p + j < |rs| && Fill(t, rs)[i] ==
        if t[i] == 'x' then HexDigit(rs[p + j]) else VariantDigit(rs[p + j])
      by {
        var rest := rs[p..];
        FillStep(t, rs, i);
        assert t[1..][i - 1] == t[i];
        FillDrawAt(t[1..], rest, i - 1);
        assert rest[j] == rs[p + j];
      }
    }
  }

  /** Past index 0, filling `t` is filling its tail with the nibbles the
      first character leaves. */
  lemma FillStep(t: string, rs: seq<Nibble>, i: nat)
    requires |rs| == Placeholders(t) && 0 < i < |t|
    ensures var p := if IsPlaceholder(t[0]) then 1 else 0;
      p <= |rs| && |rs[p..]| == Placeholders(t[1..]) && Fill(t, rs)[i] == Fill(t[1..], rs[p..])[i - 1]
  {
    if !IsPlaceholder(t[0]) {
      assert rs[0..] == rs;
    }
  }

  lemma PlaceholdersPrefixStep(t: string, i: nat)
    requires 0 < i <= |t|
    ensures Placeholders(t[..i]) == (if IsPlaceholder(t[0]) then 1 else 0) + Placeholders(t[1..][..i - 1])
  {
    assert t[..i][1..] == t[1..][..i - 1];
  }

  /** Every `x` and every `y` of `t`, position by position, with the nibble
      it takes. */
  lemma FillDraws(t: string, rs: seq<Nibble>)
    requires |rs| == Placeholders(t)
    ensures forall i :: 0 <= i < |t| && t[i] == 'x' ==>
      Placeholders(t[..i]) < |rs| && Fill(t, rs)[i] == HexDigit(rs[Placeholders(t[..i])])
    ensures forall i :: 0 <= i < |t| && t[i] == 'y' ==>
      Placeholders(t[..i]) < |rs| && Fill(t, rs)[i] == VariantDigit(rs[Placeholders(t[..i])])
  {
    forall i | 0 <= i < |t| && IsPlaceholder(t[i])
      ensures Placeholders(t[..i]) < |rs|
      ensures Fill(t, rs)[i] ==
        if t[i] == 'x' then HexDigit(rs[Placeholders(t[..i])]) else VariantDigit(rs[Placeholders(t[..i])])
    {
      FillDrawAt(t, rs, i);
    }
  }

  /** How many nibbles generateUUID draws before index `n` of its output:
      every index but the four hyphens and the version digit takes one. */
  function DrawsBefore(n: nat): (d: nat)
    requires n <= 36
  {
    if n <= 8 then n
    else if n <= 13 then n - 1
    else if n <= 14 then n - 2
    else if n <= 18 then n - 3
    else if n <= 23 then n - 4
    else n - 5
  }

  /** `DrawsBefore` counts the placeholders of the template. */
  lemma {:induction false} TemplateDrawCount(n: nat)
    requires n <= 36
    ensures |Template| == 36
    ensures Placeholders(Template[..n]) == DrawsBefore(n)
    decreases n
  {
    TemplateShape();
    if n == 0 {
      assert Template[..0] == [];
    } else {
      var c := Template[n - 1];
      TemplateDrawCount(n - 1);
      assert Template[..n] == Template[..n - 1] + [c];
      PlaceholdersAppend(Template[..n - 1], [c]);
      assert Placeholders([c]) == if IsPlaceholder(c) then 1 else 0 by {
        assert [c][1..] == [];
      }
    }
  }

  /** The index of the output that nibble `k` fills; the inverse of
      `DrawsBefore` on the filled indexes. */
  function DrawPosition(k: nat): (i: nat)
    requires k < 31
    ensures i < 36 && !IsHyphenIndex(i) && i != 14 && DrawsBefore(i) == k
    ensures i == 19 <==> k == 15
  {
    if k < 8 then k
    else if k < 12 then k + 1
    else if k < 15 then k + 3
    else if k < 19 then k + 4
    else k + 5
  }

  /** Filling the template: index 19 takes nibble 15 through the variant
      mask, every other filled index `i` takes nibble `DrawsBefore(i)` as it is. */
  lemma TemplateDraws(rs: seq<Nibble>)
    requires |rs| == 31
    ensures Placeholders(Template) == 31
    ensures |Fill(Template, rs)| == 36
    ensures forall i :: 0 <= i < 36 && !IsHyphenIndex(i) && i != 14 && i != 19 ==>
      Fill(Template, rs)[i] == HexDigit(rs[DrawsBefore(i)])
    ensures Fill(Template, rs)[19] == VariantDigit(rs[15])
  {
    TemplatePlaceholders();
    TemplateShape();
    FillDraws(Template, rs);
    forall i | 0 <= i < 36 && !IsHyphenIndex(i) && i != 14 && i != 19
      ensures Fill(Template, rs)[i] == HexDigit(rs[DrawsBefore(i)])
    {
      TemplateDrawCount(i);
    }
    TemplateDrawCount(19);
  }

  /** generateUUID with its 31 random nibbles given, in the order
      `Math.random` is called. */
  function GenerateUUID(rs: seq<Nibble>): (u: string)
    requires |rs| == 31
    ensures |u| == 36
    ensures forall i :: 0 <= i < 36 && IsHyphenIndex(i) ==> u[i] == '-'
    ensures u[14] == '4'
    ensures u[19] in "89ab"
    ensures forall i :: 0 <= i < 36 && !IsHyphenIndex(i) ==> IsLowerHex(u[i])
    ensures forall i :: 0 <= i < 36 && !IsHyphenIndex(i) && i != 14 && i != 19 ==>
      u[i] == HexDigit(rs[DrawsBefore(i)])
    ensures u[19] == VariantDigit(rs[15])
  {
    TemplatePlaceholders();
    TemplateShape();
    TemplateDraws(rs);
    Fill(Template, rs)
  }

  /** Two draws give the same identifier exactly when they agree on every
      nibble but the variant one, and on that one up to its two low bits. */
  lemma GenerateUUIDSame(rs1: seq<Nibble>, rs2: seq<Nibble>)
    requires |rs1| == 31 && |rs2| == 31
    ensures GenerateUUID(rs1) == GenerateUUID(rs2) <==>
      (forall k :: 0 <= k < 31 && k != 15 ==> rs1[k] == rs2[k])
      && VariantNibble(rs1[15]) == VariantNibble(rs2[15])
  {
    var u1, u2 := GenerateUUID(rs1), GenerateUUID(rs2);
    if u1 == u2 {
      forall k | 0 <= k < 31 && k != 15
        ensures rs1[k] == rs2[k]
      {
        var i := DrawPosition(k);
        assert u1[i] == HexDigit(rs1[k]) && u2[i] == HexDigit(rs2[k]);
        HexDigitRoundTrip(rs1[k]);
        HexDigitRoundTrip(rs2[k]);
      }
      HexDigitRoundTrip(VariantNibble(rs1[15]));
      HexDigitRoundTrip(VariantNibble(rs2[15]));
    }
    if (forall k :: 0 <= k < 31 && k != 15 ==> rs1[k] == rs2[k])
      && VariantNibble(rs1[15]) == VariantNibble(rs2[15])
    {
      forall i | 0 <= i < 36
        ensures u1[i] == u2[i]
      {
        if !IsHyphenIndex(i) && i != 14 && i != 19 {
          assert DrawsBefore(i) != 15;
        }
      }
    }
  }

  // ---------------------------------------------------------------------------
  // isValidUUID
  // ---------------------------------------------------------------------------

  /** One `[class]{count}` item of an anchored regular expression. */
  datatype Term = Term(chars: set<char>, count: nat)

  const HexClass: set<char> :=
    {'0', '1', '2', '3', '4', '5', '6', '7', '8', '9', 'a', 'b', 'c', 'd', 'e', 'f'}
  const VersionClass: set<char> := {'1', '2', '3', '4', '5'}
  const VariantClass: set<char> := {'8', '9', 'a', 'b'}
  const Hyphen: set<char> := {'-'}

  /** `/^[0-9a-f]{8}-[0-9a-f]{4}-[1-5][0-9a-f]{3}-[89ab][0-9a-f]{3}-[0-9a-f]{12}$/i` */
  const UuidPattern: seq<Term> := [
    Term(HexClass, 8), Term(Hyphen, 1), Term(HexClass, 4), Term(Hyphen, 1),
    Term(VersionClass, 1), Term(HexClass, 3), Term(Hyphen, 1),
    Term(VariantClass, 1), Term(HexClass, 3), Term(Hyphen, 1), Term(HexClass, 12)]

  /** The `i` flag: an ASCII capital letter compares as its lower-case form.
      The classes hold only ASCII characters, and the flag never lets a
      non-ASCII character match an ASCII one. */
  function Fold(c: char): char {
    if 'A' <= c <= 'Z' then (c as int + 32) as char else c
  }

  /** Every character of `s` is in `chars` up to case. */
  predicate AllIn(s: string, chars: set<char>) {
    forall i :: 0 <= i < |s| ==> Fold(s[i]) in chars
  }

  /** `s` matches the pattern `p` exactly, from start to end. */
  predicate Matches(p: seq<Term>, s: string)
    decreases |p|
  {
    if p == [] then s == []
    else |s| >= p[0].count && AllIn(s[..p[0].count], p[0].chars) && Matches(p[1..], s[p[0].count..])
  }

  /** Case-insensitive hexadecimal digit. */
  predicate IsHex(c: char) {
    IsLowerHex(Fold(c))
  }

  /** The accepted shape, stated position by position. */
  predicate UuidShape(s: string) {
    && |s| == 36
    && (forall i :: 0 <= i < 36 && IsHyphenIndex(i) ==> s[i] == '-')
    && '1' <= s[14] <= '5'
    && Fold(s[19]) in VariantClass
    && (forall i :: 0 <= i < 36 && !IsHyphenIndex(i) ==> IsHex(s[i]))
  }

  /** isValidUUID: a non-string or empty value is rejected (None stands for
      every value that is not a string), a string is tested against the pattern. */
  function IsValidUUID(v: Option<string>): (ok: bool)
    ensures ok <==> v.Some? && UuidShape(v.value)
  {
    var ok := v.Some? && v.value != "" && Matches(UuidPattern, v.value);
    if v.Some? then PatternIffShape(v.value); ok else ok
  }

  function TotalCount(p: seq<Term>): nat {
    if p == [] then 0 else p[0].count + TotalCount(p[1..])
  }

  lemma {:induction false} MatchesLength(p: seq<Term>, s: string)
    ensures Matches(p, s) ==> |s| == TotalCount(p)
    decreases |p|
  {
    if p != [] && Matches(p, s) {
      MatchesLength(p[1..], s[p[0].count..]);
    }
  }

  lemma PatternTotal()
    ensures TotalCount(UuidPattern) == 36
  {
    var p := UuidPattern;
    assert p[11..] == [];
    assert TotalCount(p[10..]) == 12;
    assert TotalCount(p[9..]) == 13;
    assert TotalCount(p[8..]) == 16;
    assert TotalCount(p[7..]) == 17;
    assert TotalCount(p[6..]) == 18;
    assert TotalCount(p[5..]) == 21;
    assert TotalCount(p[4..]) == 22;
    assert TotalCount(p[3..]) == 23;
    assert TotalCount(p[2..]) == 27;
    assert TotalCount(p[1..]) == 28;
  }

  /** Matching the first item of `p` at offset `k` of `s`. */
  lemma MatchesStep(p: seq<Term>, s: string, k: nat)
    requires p != [] && k + p[0].count <= |s|
    ensures Matches(p, s[k..]) <==> AllIn(s[k..k + p[0].count], p[0].chars) && Matches(p[1..], s[k + p[0].count..])
  {
    assert s[k..][..p[0].count] == s[k..k + p[0].count];
    assert s[k..][p[0].count..] == s[k + p[0].count..];
  }

  /** The pattern, read group by group. */
  predicate GroupShape(s: string) {
    && |s| == 36
    && AllIn(s[..8], HexClass) && AllIn(s[8..9], Hyphen) && AllIn(s[9..13], HexClass)
    && AllIn(s[13..14], Hyphen) && AllIn(s[14..15], VersionClass) && AllIn(s[15..18], HexClass)
    && AllIn(s[18..19], Hyphen) && AllIn(s[19..20], VariantClass) && AllIn(s[20..23], HexClass)
    && AllIn(s[23..24], Hyphen) && AllIn(s[24..36], HexClass)
  }

  lemma PatternGroups36(s: string)
    requires |s| == 36
    ensures Matches(UuidPattern, s) <==> GroupShape(s)
  {
    PatternItems0To2(s);
    PatternItems3To5(s);
    PatternItems6To8(s);
    PatternItems9To10(s);
  }

  /** Matching item `i` of the UUID pattern, `[chars]{count}`, at offset `k` of `s`. */
  lemma PatternStep(i: nat, chars: set<char>, count: nat, s: string, k: nat)
    requires i < |UuidPattern| && UuidPattern[i] == Term(chars, count) && k + count <= |s|
    ensures Matches(UuidPattern[i..], s[k..]) <==>
      AllIn(s[k..k + count], chars) && Matches(UuidPattern[i + 1..], s[k + count..])
  {
    var p := UuidPattern[i..];
    assert p[0] == UuidPattern[i] && p[1..] == UuidPattern[i + 1..];
    MatchesStep(p, s, k);
  }

  /** `[0-9a-f]{8}-[0-9a-f]{4}` */
  lemma PatternItems0To2(s: string)
    requires |s| == 36
    ensures Matches(UuidPattern, s) <==>
      && AllIn(s[..8], HexClass) && AllIn(s[8..9], Hyphen) && AllIn(s[9..13], HexClass)
      && Matches(UuidPattern[3..], s[13..])
  {
    assert Matches(UuidPattern, s) <==> AllIn(s[..8], HexClass) && Matches(UuidPattern[1..], s[8..]) by {
      PatternStep(0, HexClass, 8, s, 0);
      assert UuidPattern[0..] == UuidPattern && s[0..] == s && s[0..8] == s[..8];
    }
    PatternStep(1, Hyphen, 1, s, 8);
    PatternStep(2, HexClass, 4, s, 9);
  }

  /** `-[1-5][0-9a-f]{3}` */
  lemma PatternItems3To5(s: string)
    requires |s| == 36
    ensures Matches(UuidPattern[3..], s[13..]) <==>
      && AllIn(s[13..14], Hyphen) && AllIn(s[14..15], VersionClass) && AllIn(s[15..18], HexClass)
      && Matches(UuidPattern[6..], s[18..])
  {
    PatternStep(3, Hyphen, 1, s, 13);
    PatternStep(4, VersionClass, 1, s, 14);
    PatternStep(5, HexClass, 3, s, 15);
  }

  /** `-[89ab][0-9a-f]{3}` */
  lemma PatternItems6To8(s: string)
    requires |s| == 36
    ensures Matches(UuidPattern[6..], s[18..]) <==>
      && AllIn(s[18..19], Hyphen) && AllIn(s[19..20], VariantClass) && AllIn(s[20..23], HexClass)
      && Matches(UuidPattern[9..], s[23..])
  {
    PatternStep(6, Hyphen, 1, s, 18);
    PatternStep(7, VariantClass, 1, s, 19);
    PatternStep(8, HexClass, 3, s, 20);
  }

  /** `-[0-9a-f]{12}` and the end of the input. */
  lemma PatternItems9To10(s: string)
    requires |s| == 36
    ensures Matches(UuidPattern[9..], s[23..]) <==> AllIn(s[23..24], Hyphen) && AllIn(s[24..36], HexClass)
  {
    PatternStep(9, Hyphen, 1, s, 23);
    assert Matches(UuidPattern[10..], s[24..]) <==> AllIn(s[24..36], HexClass) by {
      PatternStep(10, HexClass, 12, s, 24);
      assert UuidPattern[11..] == [] && s[36..] == [];
    }
  }

  /** `AllIn` over a slice is a statement about the positions it covers. */
  lemma AllInSlice(s: string, a: nat, b: nat, chars: set<char>)
    requires a <= b <= |s|
    ensures AllIn(s[a..b], chars) <==> forall i :: a <= i < b ==> Fold(s[i]) in chars
  {
    if AllIn(s[a..b], chars) {
      forall i | a <= i < b
        ensures Fold(s[i]) in chars
      {
        assert s[a..b][i - a] == s[i];
      }
    }
  }

  /** The character classes, and the case folding, in terms of the
      positional predicates. */
  lemma ClassFacts()
    ensures forall c :: c in HexClass <==> IsLowerHex(c)
    ensures forall c :: c in VersionClass ==> IsLowerHex(c)
    ensures forall c :: c in VariantClass ==> IsLowerHex(c)
    ensures forall c :: Fold(c) == '-' <==> c == '-'
    ensures forall c :: Fold(c) in VersionClass <==> c in VersionClass
  {
  }

  /** Every group of the pattern, stated position by position. */
  predicate PositionsOk(s: string)
    requires |s| == 36
  {
    && (forall i :: 0 <= i < 8 ==> Fold(s[i]) in HexClass)
    && (forall i :: 8 <= i < 9 ==> Fold(s[i]) in Hyphen)
    && (forall i :: 9 <= i < 13 ==> Fold(s[i]) in HexClass)
    && (forall i :: 13 <= i < 14 ==> Fold(s[i]) in Hyphen)
    && (forall i :: 14 <= i < 15 ==> Fold(s[i]) in VersionClass)
    && (forall i :: 15 <= i < 18 ==> Fold(s[i]) in HexClass)
    && (forall i :: 18 <= i < 19 ==> Fold(s[i]) in Hyphen)
    && (forall i :: 19 <= i < 20 ==> Fold(s[i]) in VariantClass)
    && (forall i :: 20 <= i < 23 ==> Fold(s[i]) in HexClass)
    && (forall i :: 23 <= i < 24 ==> Fold(s[i]) in Hyphen)
    && (forall i :: 24 <= i < 36 ==> Fold(s[i]) in HexClass)
  }

  lemma GroupIffPositions(s: string)
    requires |s| == 36
    ensures GroupShape(s) <==> PositionsOk(s)
  {
    AllInSlice(s, 0, 8, HexClass);
    AllInSlice(s, 8, 9, Hyphen);
    AllInSlice(s, 9, 13, HexClass);
    AllInSlice(s, 13, 14, Hyphen);
    AllInSlice(s, 14, 15, VersionClass);
    AllInSlice(s, 15, 18, HexClass);
    AllInSlice(s, 18, 19, Hyphen);
    AllInSlice(s, 19, 20, VariantClass);
    AllInSlice(s, 20, 23, HexClass);
    AllInSlice(s, 23, 24, Hyphen);
    AllInSlice(s, 24, 36, HexClass);
  }

  lemma PositionsToShape(s: string)
    requires |s| == 36 && PositionsOk(s)
    ensures UuidShape(s)
  {
    ClassFacts();
  }

  lemma ShapeToPositions(s: string)
    requires UuidShape(s)
    ensures PositionsOk(s)
  {
    ClassFacts();
    assert Fold(s[14]) in VersionClass;
  }

  lemma GroupIffShape(s: string)
    requires |s| == 36
    ensures GroupShape(s) <==> UuidShape(s)
  {
    GroupIffPositions(s);
    if PositionsOk(s) {
      PositionsToShape(s);
    }
    if UuidShape(s) {
      ShapeToPositions(s);
    }
  }

  /** The anchored, case-insensitive pattern accepts exactly `UuidShape`. */
  lemma PatternIffShape(s: string)
    ensures Matches(UuidPattern, s) <==> UuidShape(s)
  {
    if |s| == 36 {
      PatternGroups36(s);
      GroupIffShape(s);
    } else {
      MatchesLength(UuidPattern, s);
      PatternTotal();
    }
  }

  /** Every identifier generateUUID can produce passes isValidUUID, whatever
      the random nibbles. */
  lemma GeneratedUUIDIsValid(rs: seq<Nibble>)
    requires |rs| == 31
    ensures IsValidUUID(Some(GenerateUUID(rs)))
  {
    var u := GenerateUUID(rs);
    assert Fold(u[14]) == '4';
    assert Fold(u[19]) == u[19];
    forall i | 0 <= i < 36 && !IsHyphenIndex(i)
      ensures IsHex(u[i])
    {
      assert Fold(u[i]) == u[i];
    }
  }

  // ---------------------------------------------------------------------------
  // generateShortID
  // ---------------------------------------------------------------------------

  /** A value of `Math.floor(Math.random() * chars.length)`. */
  type Pick = n: int | 0 <= n < 62

  const Digits: string := "0123456789"
  const LowerLetters: string := "abcdefghijklmnopqrstuvwxyz"
  const UpperLetters: string := "ABCDEFGHIJKLMNOPQRSTUVWXYZ"
  /** The 62-character alphabet of generateShortID, in its order. */
  const Alphabet: string := Digits + LowerLetters + UpperLetters

  predicate IsAlphanumeric(c: char) {
    '0' <= c <= '9' || 'a' <= c <= 'z' || 'A' <= c <= 'Z'
  }

  /** The alphabet's `k`-th character, computed from code points. */
  function AlphabetChar(k: Pick): (c: char)
    ensures IsAlphanumeric(c)
  {
    if k < 10 then ('0' as int + k) as char
    else if k < 36 then ('a' as int + k - 10) as char
    else ('A' as int + k - 36) as char
  }

  lemma DigitsAt()
    ensures forall k :: 0 <= k < 10 ==> Digits[k] == ('0' as int + k) as char
  {
  }

  lemma LowerLettersAt()
    ensures forall k :: 0 <= k < 26 ==> LowerLetters[k] == ('a' as int + k) as char
  {
  }

  lemma UpperLettersAt()
    ensures forall k :: 0 <= k < 26 ==> UpperLetters[k] == ('A' as int + k) as char
  {
  }

  /** The literal alphabet agrees with the code-point definition. */
  lemma AlphabetAt(k: Pick)
    ensures |Alphabet| == 62
    ensures Alphabet[k] == AlphabetChar(k)
  {
    DigitsAt();
    LowerLettersAt();
    UpperLettersAt();
  }

  /** The alphabet lists every ASCII letter and digit exactly once. */
  lemma AlphabetIsAlphanumerics(c: char)
    ensures IsAlphanumeric(c) <==> exists k: Pick :: AlphabetChar(k) == c
    ensures forall j: Pick, k: Pick :: AlphabetChar(j) == AlphabetChar(k) ==> j == k
  {
    if IsAlphanumeric(c) {
      var k: Pick :=
        if c <= '9' then c as int - '0' as int
        else if 'a' <= c then c as int - 'a' as int + 10
        else c as int - 'A' as int + 36;
      assert AlphabetChar(k) == c;
    }
  }

  /** How many characters generateShortID(length) emits: `length`
      defaults to 8 when undefined, and the loop runs zero times when it is
      not positive. */
  function ShortIDLength(length: Option<int>): (n: nat)
    ensures length == None ==> n == 8
    ensures length.Some? && length.value <= 0 ==> n == 0
    ensures length.Some? && length.value > 0 ==> n == length.value
  {
    var l := length.GetOr(8);
    if l <= 0 then 0 else l
  }

  /** generateShortID with the random picks given; picks beyond the length
      are not drawn. */
  method GenerateShortID(length: Option<int>, picks: seq<Pick>) returns (id: string)
    requires |picks| >= ShortIDLength(length)
    ensures |id| == ShortIDLength(length)
    ensures forall i :: 0 <= i < |id| ==> id[i] == AlphabetChar(picks[i])
    ensures forall i :: 0 <= i < |id| ==> IsAlphanumeric(id[i])
  {
    var n := length.GetOr(8);
    id := "";
    var i := 0;
    while i < n
      invariant 0 <= i
      invariant i <= ShortIDLength(length)
      invariant |id| == i
      invariant forall j :: 0 <= j < i ==> id[j] == AlphabetChar(picks[j])
    {
      AlphabetAt(picks[i]);
      id := id + [Alphabet[picks[i]]];
      i := i + 1;
    }
  }

  // ---------------------------------------------------------------------------
  // generateTimeBasedUUID
  // ---------------------------------------------------------------------------

  function Pow16(k: nat): (p: nat)
    ensures p >= 1
  {
    if k == 0 then 1 else 16 * Pow16(k - 1)
  }

  /** `n.toString(16)` for a non-negative integer: the shortest lower-case
      hexadecimal numeral, "0" for zero. */
  function ToHexString(n: nat): (s: string)
    ensures 1 <= |s|
    ensures forall i :: 0 <= i < |s| ==> IsLowerHex(s[i])
    decreases n
  {
    if n < 16 then [HexDigit(n)] else ToHexString(n / 16) + [HexDigit(n % 16)]
  }

  /** The numeral has no superfluous leading digit: it is the single digit, or
      its length `k` satisfies `16^(k-1) <= n < 16^k`. */
  lemma {:induction false} ToHexStringLength(n: nat)
    ensures var k := |ToHexString(n)|;
      n < Pow16(k) && (k == 1 || Pow16(k - 1) <= n)
    decreases n
  {
    if n >= 16 {
      ToHexStringLength(n / 16);
      var k := |ToHexString(n)|;
      assert k == |ToHexString(n / 16)| + 1;
      Pow16Step(k);
    }
  }

  function Repeat(c: char, k: nat): (s: string)
    ensures |s| == k
    ensures forall i :: 0 <= i < k ==> s[i] == c
  {
    if k == 0 then [] else [c] + Repeat(c, k - 1)
  }

  /** `s.padStart(width, fill)` with a one-character filler. */
  function PadStart(s: string, width: nat, fill: char): (r: string)
    ensures |r| == if |s| >= width then |s| else width
    ensures r[|r| - |s|..] == s
    ensures forall i :: 0 <= i < |r| - |s| ==> r[i] == fill
  {
    if |s| >= width then s else Repeat(fill, width - |s|) + s
  }

  /** The `w` low-order hexadecimal digits of `n`, most significant first. */
  function FixedHex(n: nat, w: nat): (s: string)
    ensures |s| == w
    ensures forall i :: 0 <= i < w ==> IsLowerHex(s[i])
  {
    if w == 0 then [] else FixedHex(n / 16, w - 1) + [HexDigit(n % 16)]
  }

  lemma {:induction false} FixedHexOfZero(w: nat)
    ensures FixedHex(0, w) == Repeat('0', w)
  {
    if w > 0 {
      FixedHexOfZero(w - 1);
      assert Repeat('0', w) == Repeat('0', w - 1) + ['0'];
    }
  }

  lemma {:induction false} Pow16Step(k: nat)
    requires k >= 1
    ensures Pow16(k) == 16 * Pow16(k - 1)
  {
  }

  /** A value below `16^w` has a numeral of at most `w` digits. */
  lemma {:induction false} ToHexStringFits(n: nat, w: nat)
    requires 1 <= w && n < Pow16(w)
    ensures |ToHexString(n)| <= w
    decreases n
  {
    if n >= 16 {
      Pow16Step(w);
      ToHexStringFits(n / 16, w - 1);
    }
  }

  lemma PadStartShort(s: string, w: nat, fill: char)
    requires |s| <= w
    ensures PadStart(s, w, fill) == Repeat(fill, w - |s|) + s
  {
  }

  lemma DivBelow(n: nat, p: nat)
    requires n < 16 * p
    ensures n / 16 < p
  {
  }

  /** Zero-padding the shortest numeral to `w` digits gives the `w`-digit
      numeral whenever the value fits in `w` digits. */
  lemma {:induction false} PaddedHexIsFixed(n: nat, w: nat)
    requires 1 <= w && n < Pow16(w)
    ensures PadStart(ToHexString(n), w, '0') == FixedHex(n, w)
    decreases n
  {
    if n < 16 {
      assert PadStart(ToHexString(n), w, '0') == Repeat('0', w - 1) + [HexDigit(n)] by {
        PadStartShort(ToHexString(n), w, '0');
      }
      assert FixedHex(n, w) == FixedHex(0, w - 1) + [HexDigit(n)];
      FixedHexOfZero(w - 1);
    } else {
      var h' := ToHexString(n / 16);
      var d := [HexDigit(n % 16)];
      assert ToHexString(n) == h' + d;
      assert n / 16 < Pow16(w - 1) by {
        Pow16Step(w);
        DivBelow(n, Pow16(w - 1));
      }
      assert |h'| <= w - 1 by {
        ToHexStringFits(n / 16, w - 1);
      }
      var zeros := Repeat('0', w - 1 - |h'|);
      assert PadStart(h' + d, w, '0') == zeros + (h' + d) by {
        PadStartShort(h' + d, w, '0');
      }
      assert PadStart(h', w - 1, '0') == zeros + h' by {
        PadStartShort(h', w - 1, '0');
      }
      assert PadStart(h', w - 1, '0') == FixedHex(n / 16, w - 1) by {
        PaddedHexIsFixed(n / 16, w - 1);
      }
      assert zeros + (h' + d) == (zeros + h') + d;
    }
  }

  /** `parseInt(c, 16)` for one lower-case hexadecimal digit. */
  function HexValue(c: char): (v: Nibble)
    requires IsLowerHex(c)
    ensures HexDigit(v) == c
  {
    if c <= '9' then c as int - '0' as int else c as int - 'a' as int + 10
  }

  /** `b.toString(16).padStart(2, "0")`: the byte's high and low nibbles as digits. */
  function ByteHex(b: Byte): (s: string)
    ensures |s| == 2
    ensures s[0] == HexDigit(b / 16) && s[1] == HexDigit(b % 16)
  {
    ByteHexDigits(b);
    PadStart(ToHexString(b), 2, '0')
  }

  lemma ByteHexDigits(b: Byte)
    ensures PadStart(ToHexString(b), 2, '0') == [HexDigit(b / 16), HexDigit(b % 16)]
  {
    PaddedHexIsFixed(b, 2);
    assert FixedHex(b, 2) == FixedHex(b / 16, 1) + [HexDigit(b % 16)];
    assert FixedHex(b / 16, 1) == [HexDigit(b / 16)];
  }

  /** `bytes.map(ByteHex).join("")`: characters `2k` and `2k + 1` are the
      `k`-th byte's two digits, high nibble first. */
  function RandomHex(bytes: seq<Byte>): (s: string)
    ensures |s| == 2 * |bytes|
    ensures forall k :: 0 <= k < |bytes| ==>
      s[2 * k] == HexDigit(bytes[k] / 16) && s[2 * k + 1] == HexDigit(bytes[k] % 16)
  {
    if bytes == [] then []
    else
      var h := ByteHex(bytes[0]);
      var t := RandomHex(bytes[1..]);
      assert forall k :: 1 <= k < |bytes| ==> bytes[k] == bytes[1..][k - 1];
      h + t
  }

  predicate AllLowerHex(s: string) {
    forall i :: 0 <= i < |s| ==> IsLowerHex(s[i])
  }

  /** A digit is lower-case hexadecimal and `parseInt(_, 16)` reads it back. */
  lemma HexDigitRoundTrip(n: Nibble)
    ensures IsLowerHex(HexDigit(n)) && HexValue(HexDigit(n)) == n
  {
  }

  /** Every character of the joined string is a lower-case hexadecimal digit. */
  lemma {:induction false} RandomHexIsLowerHex(bytes: seq<Byte>)
    ensures AllLowerHex(RandomHex(bytes))
    decreases |bytes|
  {
    if bytes != [] {
      RandomHexIsLowerHex(bytes[1..]);
      ByteHexIsLowerHex(bytes[0]);
      LowerHexAppend(ByteHex(bytes[0]), RandomHex(bytes[1..]));
      RandomHexCons(bytes);
    }
  }

  lemma ByteHexIsLowerHex(b: Byte)
    ensures AllLowerHex(ByteHex(b))
  {
    HexDigitRoundTrip(b / 16);
    HexDigitRoundTrip(b % 16);
  }

  lemma RandomHexCons(bytes: seq<Byte>)
    requires bytes != []
    ensures RandomHex(bytes) == ByteHex(bytes[0]) + RandomHex(bytes[1..])
  {
  }

  lemma LowerHexAppend(a: string, b: string)
    requires AllLowerHex(a) && AllLowerHex(b)
    ensures AllLowerHex(a + b)
  {
    assert forall i :: |a| <= i < |a + b| ==> (a + b)[i] == b[i - |a|];
  }

  /** The joined digits keep every byte: the pair at `2k` reads back as the
      `k`-th byte. */
  lemma RandomHexDecodes(bytes: seq<Byte>, k: nat)
    requires k < |bytes|
    ensures var s := RandomHex(bytes);
      IsLowerHex(s[2 * k]) && IsLowerHex(s[2 * k + 1])
      && 16 * HexValue(s[2 * k]) + HexValue(s[2 * k + 1]) == bytes[k]
  {
    var hi: Nibble := bytes[k] / 16;
    var lo: Nibble := bytes[k] % 16;
    assert RandomHex(bytes)[2 * k] == HexDigit(hi) && RandomHex(bytes)[2 * k + 1] == HexDigit(lo);
    HexDigitRoundTrip(hi);
    HexDigitRoundTrip(lo);
  }

  /** The template literal `${a}-${b}-${c}-${d}-${e}` with the 8-4-4-4-12
      group lengths. */
  function JoinGroups(a: string, b: string, c: string, d: string, e: string): (u: string)
    requires |a| == 8 && |b| == 4 && |c| == 4 && |d| == 4 && |e| == 12
    ensures |u| == 36
    ensures forall i :: 0 <= i < 36 && IsHyphenIndex(i) ==> u[i] == '-'
    ensures u[..8] == a && u[9..13] == b && u[14..18] == c && u[19..23] == d && u[24..] == e
  {
    var u := a + "-" + b + "-" + c + "-" + d + "-" + e;
    assert u[..8] == a && u[9..13] == b && u[14..18] == c && u[19..23] == d && u[24..] == e;
    u
  }

  /** Joining hexadecimal groups puts a hexadecimal digit at every position
      that is not a hyphen. */
  lemma JoinGroupsHex(a: string, b: string, c: string, d: string, e: string)
    requires |a| == 8 && |b| == 4 && |c| == 4 && |d| == 4 && |e| == 12
    requires AllLowerHex(a) && AllLowerHex(b) && AllLowerHex(c) && AllLowerHex(d) && AllLowerHex(e)
    ensures var u := JoinGroups(a, b, c, d, e);
      forall i :: 0 <= i < 36 && !IsHyphenIndex(i) ==> IsLowerHex(u[i])
  {
    var u := JoinGroups(a, b, c, d, e);
    forall i | 0 <= i < 36 && !IsHyphenIndex(i)
      ensures IsLowerHex(u[i])
    {
      if i < 8 { assert u[i] == u[..8][i]; }
      else if i < 13 { assert u[i] == u[9..13][i - 9]; }
      else if i < 18 { assert u[i] == u[14..18][i - 14]; }
      else if i < 23 { assert u[i] == u[19..23][i - 19]; }
      else { assert u[i] == u[24..][i - 24]; }
    }
  }

  /** The 16-digit zero-padded hexadecimal timestamp, `timeHex`. */
  function TimeHex(time: nat): (h: string)
    ensures |h| >= 16 && AllLowerHex(h)
    ensures time < 0x1_0000_0000_0000_0000 ==> h == FixedHex(time, 16)
  {
    PaddedTimeIsFixed(time);
    PadStart(ToHexString(time), 16, '0')
  }

  lemma PaddedTimeIsFixed(time: nat)
    ensures time < 0x1_0000_0000_0000_0000 ==> PadStart(ToHexString(time), 16, '0') == FixedHex(time, 16)
  {
    if time < 0x1_0000_0000_0000_0000 {
      Pow16Values();
      PaddedHexIsFixed(time, 16);
    }
  }

  /** The version group `"4" + randomHex.substr(1, 3)`: the first random
      digit is skipped. */
  function VersionGroup(randomHex: string): (g: string)
    requires |randomHex| == 32 && AllLowerHex(randomHex)
    ensures |g| == 4 && g[0] == '4' && AllLowerHex(g)
  {
    var g := "4" + randomHex[1..4];
    assert forall i :: 1 <= i < 4 ==> g[i] == randomHex[i];
    g
  }

  /** The variant group: the fifth random digit, parsed and masked with
      `(v & 0x3) | 0x8`, then `randomHex.substr(5, 3)`. */
  function VariantGroup(randomHex: string): (g: string)
    requires |randomHex| == 32 && AllLowerHex(randomHex)
    ensures |g| == 4 && g[0] in "89ab" && AllLowerHex(g)
  {
    var g := [VariantDigit(HexValue(randomHex[4]))] + randomHex[5..8];
    assert forall i :: 1 <= i < 4 ==> g[i] == randomHex[4 + i];
    g
  }

  /** The node group `randomHex.substr(8, 12)`. */
  function NodeGroup(randomHex: string): (g: string)
    requires |randomHex| == 32 && AllLowerHex(randomHex)
    ensures |g| == 12 && AllLowerHex(g)
  {
    var g := randomHex[8..20];
    assert forall i :: 0 <= i < 12 ==> g[i] == randomHex[8 + i];
    g
  }

  lemma PrefixHex(h: string, a: nat, b: nat)
    requires a <= b <= |h| && AllLowerHex(h)
    ensures AllLowerHex(h[a..b])
  {
    assert forall i :: 0 <= i < b - a ==> h[a..b][i] == h[a + i];
  }

  /** The template literal of generateTimeBasedUUID over twelve time digits
      `tg` and the joined random digits `rh`:
      `${tg[0..8]}-${tg[8..12]}-${version}-${variant}-${node}`. */
  function AssembleGroups(tg: string, rh: string): string
    requires |tg| == 12 && |rh| == 32 && AllLowerHex(rh)
  {
    JoinGroups(tg[..8], tg[8..12], VersionGroup(rh), VariantGroup(rh), NodeGroup(rh))
  }

  lemma AssembleGroupsShape(tg: string, rh: string)
    requires |tg| == 12 && AllLowerHex(tg) && |rh| == 32 && AllLowerHex(rh)
    ensures var u := AssembleGroups(tg, rh);
      && |u| == 36
      && (forall i :: 0 <= i < 36 && IsHyphenIndex(i) ==> u[i] == '-')
      && u[14] == '4' && u[19] in "89ab"
      && (forall i :: 0 <= i < 36 && !IsHyphenIndex(i) ==> IsLowerHex(u[i]))
      && u[..8] + u[9..13] == tg
  {
    var v := VersionGroup(rh);
    var w := VariantGroup(rh);
    var x := NodeGroup(rh);
    var u := JoinGroups(tg[..8], tg[8..12], v, w, x);
    assert u == AssembleGroups(tg, rh);
    assert forall i :: 0 <= i < 36 && !IsHyphenIndex(i) ==> IsLowerHex(u[i]) by {
      PrefixHex(tg, 0, 8);
      PrefixHex(tg, 8, 12);
      JoinGroupsHex(tg[..8], tg[8..12], v, w, x);
    }
    assert u[14] == v[0] by {
      assert u[14] == u[14..18][0];
    }
    assert u[19] == w[0] by {
      assert u[19] == u[19..23][0];
    }
    assert u[..8] + u[9..13] == tg by {
      assert tg[..8] + tg[8..12] == tg;
    }
  }

  /** Where the random digits go: digits 1-3 after the version digit, digit
      4 through the variant mask, digits 5-7 after it, digits 8-19 as the
      node group. Digit 0 and digits 20-31 are never used. */
  lemma AssembleGroupsRandom(tg: string, rh: string)
    requires |tg| == 12 && |rh| == 32 && AllLowerHex(rh)
    ensures var u := AssembleGroups(tg, rh);
      && |u| == 36
      && u[15..18] == rh[1..4]
      && u[19] == VariantDigit(HexValue(rh[4]))
      && u[20..23] == rh[5..8]
      && u[24..] == rh[8..20]
  {
    var v := VersionGroup(rh);
    var w := VariantGroup(rh);
    var u := JoinGroups(tg[..8], tg[8..12], v, w, NodeGroup(rh));
    assert u[14..18] == v && u[19..23] == w;
    assert u[15..18] == u[14..18][1..];
    assert u[20..23] == u[19..23][1..];
    assert u[19] == u[19..23][0];
  }

  /** The identifier built from twelve time digits `tg` and the random
      bytes. */
  function TimeBasedFromDigits(tg: string, bytes: seq<Byte>): (u: string)
    requires |tg| == 12 && AllLowerHex(tg) && |bytes| == 16
    ensures |u| == 36
    ensures forall i :: 0 <= i < 36 && IsHyphenIndex(i) ==> u[i] == '-'
    ensures u[14] == '4' && u[19] in "89ab"
    ensures forall i :: 0 <= i < 36 && !IsHyphenIndex(i) ==> IsLowerHex(u[i])
    ensures u[..8] + u[9..13] == tg
    ensures u[15..18] == RandomHex(bytes)[1..4]
    ensures u[19] == VariantDigit(bytes[2] / 16)
    ensures u[20..23] == RandomHex(bytes)[5..8]
    ensures u[24..] == RandomHex(bytes)[8..20]
  {
    var rh := RandomHex(bytes);
    RandomHexIsLowerHex(bytes);
    AssembleGroupsShape(tg, rh);
    AssembleGroupsRandom(tg, rh);
    assert HexValue(rh[4]) == bytes[2] / 16 by {
      assert rh[2 * 2] == HexDigit(bytes[2] / 16);
      HexDigitRoundTrip(bytes[2] / 16);
    }
    AssembleGroups(tg, rh)
  }

  /** generateTimeBasedUUID with the millisecond clock reading and the 16
      random bytes given: the time digits are `timeHex.substr(0, 8)` and
      `timeHex.substr(8, 4)`, the first twelve of the sixteen. The random
      groups take digits 1-19 of the joined bytes; the variant digit masks
      the high nibble of byte 2. */
  function GenerateTimeBasedUUID(time: nat, bytes: seq<Byte>): (u: string)
    requires |bytes| == 16
    ensures |u| == 36
    ensures forall i :: 0 <= i < 36 && IsHyphenIndex(i) ==> u[i] == '-'
    ensures u[14] == '4' && u[19] in "89ab"
    ensures forall i :: 0 <= i < 36 && !IsHyphenIndex(i) ==> IsLowerHex(u[i])
    ensures u[..8] + u[9..13] == TimeHex(time)[..12]
    ensures u[15..18] == RandomHex(bytes)[1..4]
    ensures u[19] == VariantDigit(bytes[2] / 16)
    ensures u[20..23] == RandomHex(bytes)[5..8]
    ensures u[24..] == RandomHex(bytes)[8..20]
  {
    var timeHex := TimeHex(time);
    PrefixHex(timeHex, 0, 12);
    TimeBasedFromDigits(timeHex[..12], bytes)
  }

  /** Only digits 1-19 of the joined bytes are used: the high nibble of byte
      0 and bytes 10-15 never change the identifier. */
  lemma TimeBasedUnusedBytes(time: nat, b1: seq<Byte>, b2: seq<Byte>)
    requires |b1| == 16 && |b2| == 16
    requires b1[0] % 16 == b2[0] % 16 && b1[1..10] == b2[1..10]
    ensures GenerateTimeBasedUUID(time, b1) == GenerateTimeBasedUUID(time, b2)
  {
    var h1, h2 := RandomHex(b1), RandomHex(b2);
    RandomHexSameDigits(b1, b2);
    RandomHexIsLowerHex(b1);
    RandomHexIsLowerHex(b2);
    var tg := TimeHex(time)[..12];
    PrefixHex(TimeHex(time), 0, 12);
    AssembleGroupsSameDigits(tg, h1, h2);
    assert GenerateTimeBasedUUID(time, b1) == AssembleGroups(tg, h1);
    assert GenerateTimeBasedUUID(time, b2) == AssembleGroups(tg, h2);
  }

  /** Byte lists that agree on the low nibble of byte 0 and on bytes 1-9
      join to digits that agree at 1-19. */
  lemma RandomHexSameDigits(b1: seq<Byte>, b2: seq<Byte>)
    requires |b1| == 16 && |b2| == 16
    requires b1[0] % 16 == b2[0] % 16 && b1[1..10] == b2[1..10]
    ensures forall i :: 1 <= i < 20 ==> RandomHex(b1)[i] == RandomHex(b2)[i]
  {
    var h1, h2 := RandomHex(b1), RandomHex(b2);
    RandomHexMiddle(b1);
    RandomHexMiddle(b2);
    forall i | 1 <= i < 20
      ensures h1[i] == h2[i]
    {
      assert h1[i] == h1[1..20][i - 1] && h2[i] == h2[1..20][i - 1];
    }
  }

  /** Joining distributes over concatenation. */
  lemma {:induction false} RandomHexAppend(a: seq<Byte>, c: seq<Byte>)
    ensures RandomHex(a + c) == RandomHex(a) + RandomHex(c)
    decreases |a|
  {
    if a == [] {
      assert a + c == c;
    } else {
      assert (a + c)[0] == a[0] && (a + c)[1..] == a[1..] + c;
      RandomHexAppend(a[1..], c);
    }
  }

  /** Digits 1-19 of sixteen joined bytes: the low digit of byte 0, then
      bytes 1-9. */
  lemma RandomHexMiddle(b: seq<Byte>)
    requires |b| == 16
    ensures RandomHex(b)[1..20] == [HexDigit(b[0] % 16)] + RandomHex(b[1..10])
  {
    var head := [b[0]] + b[1..10];
    var x, m, r := RandomHex([b[0]]), RandomHex(b[1..10]), RandomHex(b[10..]);
    assert RandomHex(b) == RandomHex(head) + r by {
      assert b == head + b[10..];
      RandomHexAppend(head, b[10..]);
    }
    assert RandomHex(head) == x + m by {
      RandomHexAppend([b[0]], b[1..10]);
    }
    assert x == ByteHex(b[0]) by {
      RandomHexCons([b[0]]);
      assert [b[0]][1..] == [];
    }
    MiddleSlice(x, m, r);
  }

  lemma MiddleSlice(x: string, m: string, r: string)
    requires |x| == 2
    ensures (x + m + r)[1..2 + |m|] == [x[1]] + m
  {
    assert forall i :: 0 <= i < |m| ==> (x + m + r)[2 + i] == m[i];
  }

  /** The assembled identifier reads only digits 1-19 of `rh`. */
  lemma AssembleGroupsSameDigits(tg: string, rh1: string, rh2: string)
    requires |tg| == 12 && |rh1| == 32 && AllLowerHex(rh1) && |rh2| == 32 && AllLowerHex(rh2)
    requires forall i :: 1 <= i < 20 ==> rh1[i] == rh2[i]
    ensures AssembleGroups(tg, rh1) == AssembleGroups(tg, rh2)
  {
    assert rh1[1..4] == rh2[1..4];
    assert rh1[4] == rh2[4];
    assert rh1[5..8] == rh2[5..8];
    assert rh1[8..20] == rh2[8..20];
    assert VersionGroup(rh1) == VersionGroup(rh2);
    assert VariantGroup(rh1) == VariantGroup(rh2);
    assert NodeGroup(rh1) == NodeGroup(rh2);
  }

  /** A string of the shape `UuidShape` asks for with lower-case digits
      passes isValidUUID. */
  lemma LowerHexShapeIsValid(u: string)
    requires |u| == 36
    requires forall i :: 0 <= i < 36 && IsHyphenIndex(i) ==> u[i] == '-'
    requires u[14] == '4' && u[19] in "89ab"
    requires forall i :: 0 <= i < 36 && !IsHyphenIndex(i) ==> IsLowerHex(u[i])
    ensures IsValidUUID(Some(u))
  {
    assert Fold(u[14]) == '4';
    assert Fold(u[19]) == u[19];
    forall i | 0 <= i < 36 && !IsHyphenIndex(i)
      ensures IsHex(u[i])
    {
      assert Fold(u[i]) == u[i];
    }
  }

  /** Every identifier generateTimeBasedUUID can produce passes isValidUUID. */
  lemma TimeBasedUUIDIsValid(time: nat, bytes: seq<Byte>)
    requires |bytes| == 16
    ensures IsValidUUID(Some(GenerateTimeBasedUUID(time, bytes)))
  {
    LowerHexShapeIsValid(GenerateTimeBasedUUID(time, bytes));
  }

  lemma MulAtLeast(d: int, k: int)
    requires d > 0 && k >= 1
    ensures d * k >= d
  {
    assert d * k == d * (k - 1) + d;
  }

  /** Quotient and remainder are unique. */
  lemma DivUnique(n: int, d: int, q: int, r: int)
    requires d > 0 && n == d * q + r && 0 <= r < d
    ensures n / d == q
  {
    var q' := n / d;
    var r' := n % d;
    assert n == d * q' + r';
    assert d * (q - q') == r' - r;
    if q > q' {
      MulAtLeast(d, q - q');
    } else if q < q' {
      MulAtLeast(d, q' - q);
    }
  }

  /** Dividing by 16 and then by `p` is dividing by `16 * p`. */
  lemma DivDiv16(n: nat, p: nat)
    requires p >= 1
    ensures n / 16 / p == n / (16 * p)
  {
    var m := n / 16;
    var q := m / p;
    var r := m % p;
    assert m == p * q + r;
    var big := 16 * p;
    assert 16 * (p * q) == big * q;
    assert n == big * q + (16 * r + n % 16);
    DivUnique(n, big, q, 16 * r + n % 16);
  }

  /** `n` with its `k` low hexadecimal digits dropped. */
  function DropDigits(n: nat, k: nat): nat {
    if k == 0 then n else DropDigits(n / 16, k - 1)
  }

  lemma {:induction false} DropDigitsIsDivision(n: nat, k: nat)
    ensures DropDigits(n, k) == n / Pow16(k)
  {
    if k > 0 {
      DropDigitsIsDivision(n / 16, k - 1);
      DivDiv16(n, Pow16(k - 1));
    }
  }

  /** An `a + b`-digit numeral is the `a`-digit numeral of the value with its
      `b` low digits dropped, followed by the `b` low digits. */
  lemma {:induction false} FixedHexSplit(n: nat, a: nat, b: nat)
    ensures FixedHex(n, a + b) == FixedHex(DropDigits(n, b), a) + FixedHex(n, b)
  {
    if b > 0 {
      var m := n / 16;
      var d := [HexDigit(n % 16)];
      FixedHexSplit(m, a, b - 1);
      var hi := FixedHex(DropDigits(m, b - 1), a);
      var lo := FixedHex(m, b - 1);
      assert FixedHex(m, a + (b - 1)) == hi + lo;
      assert FixedHex(n, a + b) == FixedHex(m, a + (b - 1)) + d;
      assert FixedHex(n, b) == lo + d;
      assert (hi + lo) + d == hi + (lo + d);
    } else {
      assert FixedHex(n, 0) == [];
    }
  }

  lemma Pow16Values()
    ensures Pow16(4) == 0x1_0000
    ensures Pow16(12) == 0x1_0000_0000_0000
    ensures Pow16(16) == 0x1_0000_0000_0000_0000
  {
    assert Pow16(8) == 0x1_0000_0000;
  }

  /** The first twelve of the sixteen padded digits are the numeral of the
      timestamp with its four low hexadecimal digits dropped. */
  lemma TimeHexHighDigits(time: nat)
    requires time < 0x1_0000_0000_0000_0000
    ensures TimeHex(time)[..12] == FixedHex(time / 0x1_0000, 12)
  {
    Pow16Values();
    FixedHexSplit(time, 12, 4);
    DropDigitsIsDivision(time, 4);
  }

  /** The twelve time digits of generateTimeBasedUUID record the timestamp
      only to 65536 milliseconds. */
  lemma TimeBasedUUIDTimeValue(time: nat, bytes: seq<Byte>)
    requires |bytes| == 16 && time < 0x1_0000_0000_0000_0000
    ensures var u := GenerateTimeBasedUUID(time, bytes);
      u[..8] + u[9..13] == FixedHex(time / 65536, 12)
  {
    TimeHexHighDigits(time);
  }

  /** As written, two clock readings in the same 65536-millisecond window
      give the same identifier for the same random bytes. */
  lemma TimeBasedUUIDCoarse(t1: nat, t2: nat, bytes: seq<Byte>)
    requires |bytes| == 16
    requires t1 < 0x1_0000_0000_0000_0000 && t2 < 0x1_0000_0000_0000_0000
    requires t1 / 65536 == t2 / 65536
    ensures GenerateTimeBasedUUID(t1, bytes) == GenerateTimeBasedUUID(t2, bytes)
  {
    TimeHexHighDigits(t1);
    TimeHexHighDigits(t2);
  }

  /** The quotient below, computed once. */
  lemma CollisionQuotient()
    ensures 1700000000000 / 65536 == 25939941
    ensures 1700000000001 / 65536 == 25939941
  {
    DivUnique(1700000000000, 65536, 25939941, 26624);
    DivUnique(1700000000001, 65536, 25939941, 26625);
  }

  /** A value below 16^7 has five leading zeros in its 12-digit numeral. */
  lemma LeadingZeros(q: nat)
    requires q < 0x1000_0000
    ensures FixedHex(q, 12)[..5] == "00000"
  {
    Pow16Seven();
    DropDigitsIsDivision(q, 7);
    assert DropDigits(q, 7) == 0;
    FixedHexSplit(q, 5, 7);
    FixedHexOfZero(5);
    assert FixedHex(q, 12)[..5] == FixedHex(0, 5);
    assert Repeat('0', 5) == "00000";
  }

  lemma Pow16Seven()
    ensures Pow16(7) == 0x1000_0000
  {
  }

  /** Two readings in the same 65536-millisecond window below 16^7 windows
      share an identifier whose first five digits are zero. */
  lemma TimeBasedUUIDCollision(t1: nat, t2: nat, bytes: seq<Byte>)
    requires |bytes| == 16
    requires t1 / 65536 == t2 / 65536 < 0x1000_0000
    ensures GenerateTimeBasedUUID(t1, bytes) == GenerateTimeBasedUUID(t2, bytes)
    ensures GenerateTimeBasedUUID(t1, bytes)[..5] == "00000"
  {
    assert t1 < 0x1_0000_0000_0000_0000 && t2 < 0x1_0000_0000_0000_0000;
    var u := GenerateTimeBasedUUID(t1, bytes);
    TimeBasedUUIDCoarse(t1, t2, bytes);
    TimeBasedUUIDTimeValue(t1, bytes);
    LeadingZeros(t1 / 65536);
    assert u[..5] == (u[..8] + u[9..13])[..5];
  }

  /** A concrete instance: 1700000000000 and 1700000000001 (November 2023)
      give the same identifier, and its first five digits are zero. */
  lemma TimeBasedUUIDCollisionExample(bytes: seq<Byte>)
    requires |bytes| == 16
    ensures GenerateTimeBasedUUID(1700000000000, bytes) == GenerateTimeBasedUUID(1700000000001, bytes)
    ensures GenerateTimeBasedUUID(1700000000000, bytes)[..5] == "00000"
  {
    CollisionQuotient();
    TimeBasedUUIDCollision(1700000000000, 1700000000001, bytes);
  }

  /** The evidently intended version keeps the twelve low digits of the
      timestamp, `timeHex.substr(4, 8)` and `timeHex.substr(12, 4)`. */
  function GenerateTimeBasedUUIDLowDigits(time: nat, bytes: seq<Byte>): (u: string)
    requires |bytes| == 16
    ensures |u| == 36
    ensures u[..8] + u[9..13] == TimeHex(time)[4..16]
  {
    var timeHex := TimeHex(time);
    PrefixHex(timeHex, 4, 16);
    TimeBasedFromDigits(timeHex[4..16], bytes)
  }

  lemma HexDigitInjective(v: Nibble, w: Nibble)
    requires HexDigit(v) == HexDigit(w)
    ensures v == w
  {
    assert v == HexValue(HexDigit(v));
    assert w == HexValue(HexDigit(w));
  }

  /** Distinct values that fit in `w` digits have distinct numerals. */
  lemma {:induction false} FixedHexInjective(n: nat, m: nat, w: nat)
    requires n < Pow16(w) && m < Pow16(w)
    requires FixedHex(n, w) == FixedHex(m, w)
    ensures n == m
  {
    if w > 0 {
      Pow16Step(w);
      DivBelow(n, Pow16(w - 1));
      DivBelow(m, Pow16(w - 1));
      var a := FixedHex(n, w);
      assert a[..w - 1] == FixedHex(n / 16, w - 1);
      assert FixedHex(m, w)[..w - 1] == FixedHex(m / 16, w - 1);
      FixedHexInjective(n / 16, m / 16, w - 1);
      assert a[w - 1] == HexDigit(n % 16) && FixedHex(m, w)[w - 1] == HexDigit(m % 16);
      HexDigitInjective(n % 16, m % 16);
    }
  }

  /** The corrected identifier carries the whole millisecond timestamp below
      16^12 (about 8900 years): distinct clock readings give distinct
      identifiers, and the identifier still passes isValidUUID. */
  lemma LowDigitsDistinguishTimes(t1: nat, t2: nat, bytes: seq<Byte>)
    requires |bytes| == 16 && t1 != t2
    requires t1 < 0x1_0000_0000_0000 && t2 < 0x1_0000_0000_0000
    ensures GenerateTimeBasedUUIDLowDigits(t1, bytes) != GenerateTimeBasedUUIDLowDigits(t2, bytes)
    ensures IsValidUUID(Some(GenerateTimeBasedUUIDLowDigits(t1, bytes)))
  {
    Pow16Values();
    LowDigitsAreTimestamp(t1);
    LowDigitsAreTimestamp(t2);
    if FixedHex(t1, 12) == FixedHex(t2, 12) {
      FixedHexInjective(t1, t2, 12);
    }
    var tg := TimeHex(t1)[4..16];
    PrefixHex(TimeHex(t1), 4, 16);
    LowerHexShapeIsValid(TimeBasedFromDigits(tg, bytes));
  }

  /** Below 16^12, the twelve low digits of the padded numeral are the
      12-digit numeral of the timestamp. */
  lemma LowDigitsAreTimestamp(time: nat)
    requires time < 0x1_0000_0000_0000
    ensures TimeHex(time)[4..16] == FixedHex(time, 12)
  {
    Pow16Values();
    FixedHexSplit(time, 4, 12);
    DropDigitsIsDivision(time, 12);
  }
}
