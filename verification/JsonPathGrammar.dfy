// The grammar of path expressions: which texts stand for which paths. The
// parser accepts just these, blanks, signs and leading zeros included.
module JsonPathGrammar {
  import opened Types
  import opened JsonPath
  import opened JsonPathParser

  ghost predicate IsLetter(c: char) { 65 <= c as int <= 90 || 97 <= c as int <= 122 }

  ghost predicate IsNumeral(c: char) { 48 <= c as int <= 57 }

  ghost predicate IsWhite(c: char) { c as int == 32 || 9 <= c as int <= 13 }

  ghost predicate AreNumerals(s: string) {
    s != "" && forall k :: 0 <= k < |s| ==> IsNumeral(s[k])
  }

  ghost predicate AreWhite(s: string) {
    forall k :: 0 <= k < |s| ==> IsWhite(s[k])
  }

  ghost function PowerOfTen(k: nat): int {
    if k == 0 then 1 else 10 * PowerOfTen(k - 1)
  }

  // The number that numerals stand for, the first one for the highest power.
  ghost function ValueOf(s: string): int {
    if s == "" then 0 else (s[0] as int - 48) * PowerOfTen(|s| - 1) + ValueOf(s[1..])
  }

  // The numerals, with a sign or without.
  ghost predicate IsSigned(s: string, i: int, digits: string) {
    && AreNumerals(digits)
    && (s == digits || s == "+" + digits ==> i == ValueOf(digits)) && (s == "-" + digits ==> i == -ValueOf(digits))
    && (s == digits || s == "+" + digits || s == "-" + digits)
  }

  // Signed numerals that fit 64 bits.
  ghost predicate SpellsInt(s: string, i: int) {
    -0x8000_0000_0000_0000 <= i <= 0x7FFF_FFFF_FFFF_FFFF && exists digits :: IsSigned(s, i, digits)
  }

  ghost predicate IsTight(s: string) {
    s == "" || (!IsWhite(s[0]) && !IsWhite(s[|s| - 1]))
  }

  // s is p with blanks around it.
  ghost predicate Pads(s: string, p: string) {
    exists a, b :: AreWhite(a) && AreWhite(b) && s == a + p + b
  }

  ghost predicate SpellsPadded(s: string, i: int) {
    exists p :: Pads(s, p) && SpellsInt(p, i)
  }

  // A bound of a slice may be left out.
  ghost predicate SpellsBound(s: string, bound: Option<int>) {
    match bound
    case None => AreWhite(s)
    case Some(i) => SpellsPadded(s, i)
  }

  // Integers separated by commas.
  ghost predicate SpellsList(s: string, indices: seq<int>)
    decreases |indices|
  {
    indices != [] &&
    if |indices| == 1 then SpellsPadded(s, indices[0])
    else exists a, b :: s == a + "," + b && SpellsPadded(a, indices[0]) && SpellsList(b, indices[1..])
  }

  // What stands in brackets, apart from the star.
  ghost predicate SpellsContent(s: string, segment: PathSegment) {
    match segment
    case Field(name) => false
    case Wildcard => false
    case Index(i) => SpellsInt(s, i)
    case Slice(start, end) => exists a, b :: s == a + ":" + b && SpellsBound(a, start) && SpellsBound(b, end)
    case Union(indices) => |indices| >= 2 && SpellsList(s, indices)
  }

  ghost predicate SpellsSegment(s: string, segment: PathSegment) {
    match segment
    case Field(name) =>
      name != "" && s == "." + name && forall k :: 0 <= k < |name| ==>
        IsLetter(name[k]) || IsNumeral(name[k]) || name[k] == '_'
    case Wildcard => s == ".*" || s == "[*]"
    case _ =>
      exists body, content ::
        s == "[" + body + "]" && Pads(body, content) && IsTight(content) && SpellsContent(content, segment)
  }

  // Segment after segment.
  ghost predicate SpellsPath(s: string, path: seq<PathSegment>)
    decreases |path|
  {
    if path == [] then s == ""
    else exists a, b :: s == a + b && SpellsSegment(a, path[0]) && SpellsPath(b, path[1..])
  }

  lemma CharsAre()
    ensures forall c :: IsDigit(c) <==> IsNumeral(c)
    ensures forall c :: IsBlank(c) <==> IsWhite(c)
    ensures forall c :: IsFieldChar(c) <==> IsLetter(c) || IsNumeral(c) || c == '_'
  {
  }

  lemma {:induction false} NatIsValue(s: string)
    requires AllDigits(s)
    ensures (forall k :: 0 <= k < |s| ==> IsNumeral(s[k])) && NatOf(s) == ValueOf(s)
  {
    if s != "" {
      var front, last := s[..|s| - 1], s[|s| - 1];
      NatIsValue(front);
      assert s == front + [last];
      ValueSnoc(front, last);
    }
  }

  lemma {:induction false} ValueSnoc(s: string, c: char)
    requires (forall k :: 0 <= k < |s| ==> IsNumeral(s[k])) && IsNumeral(c)
    ensures ValueOf(s + [c]) == 10 * ValueOf(s) + (c as int - 48)
  {
    if s == "" {
      assert (s + [c])[1..] == "";
    } else {
      assert (s + [c])[1..] == s[1..] + [c];
      ValueSnoc(s[1..], c);
      TenTimes(s[0] as int - 48, PowerOfTen(|s| - 1));
    }
  }

  lemma TenTimes(d: int, p: int)
    ensures d * (10 * p) == 10 * (d * p)
  {
  }

  function Unsigned(s: string): string {
    if s != "" && (s[0] == '-' || s[0] == '+') then s[1..] else s
  }

  lemma NumeralsAreDigits(s: string)
    ensures AreNumerals(s) <==> s != "" && AllDigits(s)
  {
    CharsAre();
    hide IsNumeral, IsDigit;
  }

  lemma SignedIs(s: string, i: int, digits: string)
    requires IsSigned(s, i, digits)
    ensures digits == Unsigned(s) && i == if s[0] == '-' then -ValueOf(digits) else ValueOf(digits)
  {
    assert IsNumeral(digits[0]);
    hide ValueOf;
  }

  lemma UnsignedIsSigned(s: string, i: int)
    requires AreNumerals(Unsigned(s)) && i == if s[0] == '-' then -ValueOf(Unsigned(s)) else ValueOf(Unsigned(s))
    ensures IsSigned(s, i, Unsigned(s))
  {
    var digits := Unsigned(s);
    assert IsNumeral(digits[0]);
    hide ValueOf;
    assert digits != s ==> s == [s[0]] + digits;
  }

  lemma IntGrammar(offset: nat, s: string, i: int)
    ensures ParseInt(offset, s) == Ok(i) <==> SpellsInt(s, i)
  {
    var digits := Unsigned(s);
    NumeralsAreDigits(digits);
    if AllDigits(digits) {
      NatIsValue(digits);
    }
    hide AreNumerals, AllDigits, ValueOf, NatOf, IsSigned;
    if ParseInt(offset, s) == Ok(i) {
      UnsignedIsSigned(s, i);
    }
    if SpellsInt(s, i) {
      var other :| IsSigned(s, i, other);
      SignedIs(s, i, other);
      assert AreNumerals(digits) by { SignedHasNumerals(s, i, other); }
    }
  }

  lemma SignedHasNumerals(s: string, i: int, digits: string)
    requires IsSigned(s, i, digits)
    ensures AreNumerals(digits)
  {
  }

  lemma {:induction false} StartTrimmed(s: string) returns (a: string)
    ensures AreWhite(a) && s == a + TrimStart(s)
    ensures TrimStart(s) != "" ==> !IsWhite(TrimStart(s)[0])
  {
    CharsAre();
    hide IsWhite, IsBlank;
    if s != "" && IsBlank(s[0]) {
      var rest := StartTrimmed(s[1..]);
      a := [s[0]] + rest;
    } else {
      a := "";
    }
  }

  lemma {:induction false} EndTrimmed(s: string) returns (b: string)
    ensures AreWhite(b) && s == TrimEnd(s) + b && TrimEnd(s) <= s
    ensures TrimEnd(s) != "" ==> !IsWhite(TrimEnd(s)[|TrimEnd(s)| - 1])
  {
    CharsAre();
    hide IsWhite, IsBlank;
    if s != "" && IsBlank(s[|s| - 1]) {
      var rest := EndTrimmed(s[..|s| - 1]);
      b := rest + [s[|s| - 1]];
    } else {
      b := "";
    }
  }

  lemma TrimPads(s: string)
    ensures Pads(s, Trim(s)) && IsTight(Trim(s))
  {
    var a := StartTrimmed(s);
    var b := EndTrimmed(TrimStart(s));
    hide IsWhite, TrimStart, TrimEnd;
    assert s == a + Trim(s) + b;
  }

  lemma {:induction false} TrimStartSkips(a: string, s: string)
    requires AreWhite(a) && (s != "" ==> !IsWhite(s[0]))
    ensures TrimStart(a + s) == s
  {
    CharsAre();
    if a == "" {
      assert a + s == s;
    } else {
      assert (a + s)[1..] == a[1..] + s && (a + s)[0] == a[0];
      TrimStartSkips(a[1..], s);
    }
  }

  lemma {:induction false} TrimEndSkips(s: string, b: string)
    requires AreWhite(b) && (s != "" ==> !IsWhite(s[|s| - 1]))
    ensures TrimEnd(s + b) == s
  {
    CharsAre();
    if b == "" {
      assert s + b == s;
    } else {
      assert (s + b)[..|s + b| - 1] == s + b[..|b| - 1] && (s + b)[|s + b| - 1] == b[|b| - 1];
      TrimEndSkips(s, b[..|b| - 1]);
    }
  }

  lemma PaddedTrims(s: string, p: string)
    requires Pads(s, p) && IsTight(p)
    ensures Trim(s) == p
  {
    var a, b :| AreWhite(a) && AreWhite(b) && s == a + p + b;
    if p == "" {
      assert s == (a + b) + "" && AreWhite(a + b);
      TrimStartSkips(a + b, "");
      assert TrimEnd("") == "";
    } else {
      assert s == a + (p + b) && (p + b)[0] == p[0];
      TrimStartSkips(a, p + b);
      TrimEndSkips(p, b);
    }
  }

  lemma SpelledIsTight(s: string, i: int)
    requires SpellsInt(s, i)
    ensures s != "" && IsTight(s)
  {
    var digits :| IsSigned(s, i, digits);
    hide ValueOf;
    assert IsNumeral(digits[0]) && IsNumeral(digits[|digits| - 1]);
    assert s[|s| - 1] == digits[|digits| - 1] && (s[0] == digits[0] || s[0] == '+' || s[0] == '-');
  }

  lemma PaddedGrammar(offset: nat, s: string, i: int)
    ensures ParseInt(offset, Trim(s)) == Ok(i) <==> SpellsPadded(s, i)
  {
    hide SpellsInt, ParseInt, Trim, Pads, IsTight;
    IntGrammar(offset, Trim(s), i);
    TrimPads(s);
    if SpellsPadded(s, i) {
      var p :| Pads(s, p) && SpellsInt(p, i);
      SpelledIsTight(p, i);
      PaddedTrims(s, p);
    }
  }

  lemma WhiteIsTrimmed(s: string)
    ensures Trim(s) == "" <==> AreWhite(s)
  {
    TrimPads(s);
    hide Trim;
    if AreWhite(s) {
      assert s == s + "" + "" && AreWhite("");
      assert Pads(s, "");
      PaddedTrims(s, "");
    }
  }

  lemma BoundGrammar(offset: nat, s: string, bound: Option<int>)
    ensures ParseBound(offset, s) == Ok(bound) <==> SpellsBound(s, bound)
  {
    WhiteIsTrimmed(s);
    hide SpellsPadded, ParseInt, AreWhite;
    if bound.Some? {
      PaddedGrammar(offset, s, bound.value);
      if SpellsPadded(s, bound.value) {
        assert Trim(s) != "" by { PaddedNotWhite(s, bound.value); }
      }
    }
    hide Trim;
  }

  lemma PaddedNotWhite(s: string, i: int)
    requires SpellsPadded(s, i)
    ensures Trim(s) != ""
  {
    var p :| Pads(s, p) && SpellsInt(p, i);
    hide SpellsInt, Pads, IsTight, Trim;
    SpelledIsTight(p, i);
    PaddedTrims(s, p);
  }

  // Characters of padded integers.
  ghost predicate IsPaddedChar(c: char) { IsWhite(c) || IsNumeral(c) || c == '+' || c == '-' }

  ghost predicate ArePaddedChars(s: string) {
    forall k :: 0 <= k < |s| ==> IsPaddedChar(s[k])
  }

  lemma PaddedChars(s: string, i: int)
    requires SpellsPadded(s, i)
    ensures ArePaddedChars(s) && ',' !in s && ':' !in s
  {
    var p :| Pads(s, p) && SpellsInt(p, i);
    var digits :| IsSigned(p, i, digits);
    var a, b :| AreWhite(a) && AreWhite(b) && s == a + p + b;
    assert ArePaddedChars(p) by { SignedChars(p, i, digits); }
    assert ArePaddedChars(a) && ArePaddedChars(b);
    hide IsPaddedChar, SpellsInt, Pads;
    assert ArePaddedChars(a + p + b);
    NoMarks(s);
  }

  lemma SignedChars(p: string, i: int, digits: string)
    requires IsSigned(p, i, digits)
    ensures ArePaddedChars(p)
  {
    hide ValueOf;
  }

  lemma NoMarks(s: string)
    requires ArePaddedChars(s)
    ensures ',' !in s && ':' !in s && '(' !in s && ')' !in s
  {
  }

  lemma {:induction false} FirstMark(s: string, mark: char) returns (a: string, b: string)
    requires mark in s
    ensures s == a + [mark] + b && mark !in a
  {
    if s[0] == mark {
      a, b := "", s[1..];
    } else {
      a, b := FirstMark(s[1..], mark);
      a := [s[0]] + a;
      assert s == [s[0]] + s[1..];
    }
  }

  // The first mark splits a text in one way only.
  lemma OneFirstMark(a: string, b: string, a': string, b': string, mark: char)
    requires a + [mark] + b == a' + [mark] + b' && mark !in a && mark !in a'
    ensures a == a' && b == b'
  {
    var s := a + [mark] + b;
    assert s[|a|] == mark && s[|a'|] == mark;
    assert forall k :: 0 <= k < |a| ==> s[k] == a[k] && s[k] != mark;
    assert forall k :: 0 <= k < |a'| ==> s[k] == a'[k] && s[k] != mark;
    assert s[..|a|] == a && s[..|a'|] == a' && s[|a| + 1..] == b && s[|a'| + 1..] == b';
  }

  lemma ListSplit(s: string, indices: seq<int>) returns (a: string, b: string)
    requires SpellsList(s, indices) && |indices| > 1
    ensures s == a + "," + b && SpellsPadded(a, indices[0]) && SpellsList(b, indices[1..])
  {
    a, b :| s == a + "," + b && SpellsPadded(a, indices[0]) && SpellsList(b, indices[1..]);
  }

  lemma ListCons(s: string, a: string, b: string, indices: seq<int>)
    requires s == a + "," + b && ',' !in a && indices != []
    ensures SpellsList(s, indices) <==>
      |indices| > 1 && SpellsPadded(a, indices[0]) && SpellsList(b, indices[1..])
  {
    hide SpellsPadded;
    assert s[|a|] == ',' && ',' in s;
    if SpellsList(s, indices) {
      if |indices| == 1 {
        PaddedChars(s, indices[0]);
      } else {
        var a', b' := ListSplit(s, indices);
        PaddedChars(a', indices[0]);
        OneFirstMark(a, b, a', b', ',');
      }
    }
  }

  lemma {:induction false} ListGrammar(offset: nat, s: string, indices: seq<int>)
    ensures ParseInts(offset, Split(s, ',')) == Ok(indices) <==> SpellsList(s, indices)
    decreases |s|
  {
    hide ParseInt, Trim, SpellsPadded, Split;
    if ',' in s {
      var a, b := FirstMark(s, ',');
      SplitFirst(a, b, ',');
      assert s == a + "," + b;
      assert ([a] + Split(b, ','))[1..] == Split(b, ',');
      if indices != [] {
        ListCons(s, a, b, indices);
        PaddedGrammar(offset, a, indices[0]);
        ListGrammar(offset, b, indices[1..]);
        SomeParts(offset, b, indices[1..]);
      }
      ConsParsed(offset, a, Split(b, ','), indices);
    } else {
      SplitNone(s, ',');
      if indices != [] {
        PaddedGrammar(offset, s, indices[0]);
        OnlyOne(s, indices);
      }
      OneParsed(offset, s, indices);
    }
  }

  lemma ConsParsed(offset: nat, a: string, parts: seq<string>, indices: seq<int>)
    ensures ParseInts(offset, [a] + parts) == Ok(indices) <==>
      indices != [] && ParseInt(offset, Trim(a)) == Ok(indices[0]) && ParseInts(offset, parts) == Ok(indices[1..])
  {
    hide ParseInt, Trim;
    assert ([a] + parts)[1..] == parts;
    if indices != [] {
      assert indices == [indices[0]] + indices[1..];
    }
  }

  lemma OneParsed(offset: nat, s: string, indices: seq<int>)
    ensures ParseInts(offset, [s]) == Ok(indices) <==>
      |indices| == 1 && ParseInt(offset, Trim(s)) == Ok(indices[0])
  {
    hide ParseInt, Trim;
    assert [s][1..] == [] && ParseInts(offset, []) == Ok([]);
    assert |indices| == 1 ==> indices == [indices[0]] + [];
  }

  lemma OnlyOne(s: string, indices: seq<int>)
    requires ',' !in s && indices != []
    ensures SpellsList(s, indices) <==> |indices| == 1 && SpellsPadded(s, indices[0])
  {
    hide SpellsPadded;
    if SpellsList(s, indices) && |indices| > 1 {
      ListHasMark(s, indices);
    }
  }

  lemma ListHasMark(s: string, indices: seq<int>)
    requires SpellsList(s, indices) && |indices| > 1
    ensures ',' in s
  {
    hide SpellsPadded;
    var a, b := ListSplit(s, indices);
    assert s[|a|] == ',';
  }

  lemma SomeParts(offset: nat, s: string, indices: seq<int>)
    ensures ParseInts(offset, Split(s, ',')) == Ok(indices) ==> indices != []
  {
    hide ParseInt, Trim;
  }

  // Characters of bracket content.
  ghost predicate AreContentChars(s: string) {
    forall k :: 0 <= k < |s| ==> IsPaddedChar(s[k]) || s[k] == ':' || s[k] == ','
  }

  lemma {:induction false} ListChars(s: string, indices: seq<int>)
    requires SpellsList(s, indices)
    ensures AreContentChars(s) && ':' !in s && (|indices| > 1 ==> ',' in s)
    decreases |indices|
  {
    hide SpellsPadded, IsPaddedChar;
    if |indices| == 1 {
      PaddedChars(s, indices[0]);
    } else {
      var a, b := ListSplit(s, indices);
      PaddedChars(a, indices[0]);
      ListChars(b, indices[1..]);
      assert s[|a|] == ',';
    }
  }

  lemma BoundChars(s: string, bound: Option<int>)
    requires SpellsBound(s, bound)
    ensures ArePaddedChars(s) && ',' !in s && ':' !in s
  {
    if bound.Some? {
      PaddedChars(s, bound.value);
    }
  }

  lemma IntIsPadded(s: string, i: int)
    requires SpellsInt(s, i)
    ensures SpellsPadded(s, i)
  {
    hide SpellsInt;
    assert AreWhite("") && s == "" + s + "";
    assert Pads(s, s);
  }

  lemma SliceChars(s: string, a: string, b: string)
    requires s == a + ":" + b && ArePaddedChars(a) && ArePaddedChars(b)
    ensures AreContentChars(s)
  {
    hide IsPaddedChar;
    forall k | 0 <= k < |s|
      ensures IsPaddedChar(s[k]) || s[k] == ':' || s[k] == ','
    {
      assert s[k] == if k < |a| then a[k] else if k == |a| then ':' else b[k - |a| - 1];
    }
  }

  lemma ContentChars(s: string, segment: PathSegment)
    requires SpellsContent(s, segment)
    ensures AreContentChars(s) && (':' in s <==> segment.Slice?) && (',' in s ==> segment.Union?)
    ensures segment.Union? ==> ',' in s
  {
    hide IsPaddedChar, SpellsInt, SpellsList, SpellsBound, SpellsPadded;
    match segment {
      case Index(i) =>
        IntIsPadded(s, i);
        PaddedChars(s, i);
      case Slice(start, end) =>
        var a, b :| s == a + ":" + b && SpellsBound(a, start) && SpellsBound(b, end);
        BoundChars(a, start);
        BoundChars(b, end);
        SliceChars(s, a, b);
        assert s[|a|] == ':';
      case Union(indices) =>
        ListChars(s, indices);
    }
  }

  lemma ContentIsNoCall(s: string)
    requires AreContentChars(s)
    ensures |s| >= 2 ==> s[|s| - 2..] != "()"
  {
    if |s| >= 2 {
      assert s[|s| - 2..][1] == s[|s| - 1];
    }
  }

  lemma SliceGrammar(offset: nat, s: string, start: Option<int>, end: Option<int>)
    requires ':' in s && (|s| >= 2 ==> s[|s| - 2..] != "()")
    ensures ParseBracket(offset, s) == Ok(Slice(start, end)) <==> SpellsContent(s, Slice(start, end))
  {
    var a, b := FirstMark(s, ':');
    SplitFirst(a, b, ':');
    assert s == a + ":" + b;
    hide ParseBound, SpellsBound, Split, ParseInts, ParseInt;
    BoundGrammar(offset, a, start);
    BoundGrammar(offset, b, end);
    if SpellsContent(s, Slice(start, end)) {
      var a', b' :| s == a' + ":" + b' && SpellsBound(a', start) && SpellsBound(b', end);
      BoundChars(a', start);
      BoundChars(b', end);
      OneFirstMark(a, b, a', b', ':');
    }
    if ':' !in b {
      SplitNone(b, ':');
    } else {
      assert |Split(b, ':')| > 1;
    }
  }

  lemma IndexGrammar(offset: nat, s: string, i: int)
    requires ':' !in s && ',' !in s && (|s| >= 2 ==> s[|s| - 2..] != "()")
    ensures ParseBracket(offset, s) == Ok(Index(i)) <==> SpellsInt(s, i)
  {
    hide ParseInt, SpellsInt;
    IntGrammar(offset, s, i);
  }

  lemma UnionGrammar(offset: nat, s: string, indices: seq<int>)
    requires ':' !in s && ',' in s && (|s| >= 2 ==> s[|s| - 2..] != "()")
    ensures ParseBracket(offset, s) == Ok(Union(indices)) <==> SpellsContent(s, Union(indices))
  {
    hide ParseInts, SpellsList, Split;
    ListGrammar(offset, s, indices);
    if |indices| == 1 {
      OnlyPadded(s, indices);
    }
    NoneListed(s);
  }

  lemma OnlyPadded(s: string, indices: seq<int>)
    requires ',' in s && |indices| == 1
    ensures !SpellsList(s, indices)
  {
    hide SpellsPadded;
    if SpellsPadded(s, indices[0]) {
      PaddedChars(s, indices[0]);
    }
  }

  lemma NoneListed(s: string)
    ensures !SpellsList(s, [])
  {
  }

  lemma ContentGrammar(offset: nat, s: string, segment: PathSegment)
    ensures ParseBracket(offset, s) == Ok(segment) <==> SpellsContent(s, segment)
  {
    hide SpellsContent, ParseBracket;
    if SpellsContent(s, segment) {
      ContentChars(s, segment);
      ContentIsNoCall(s);
      assert segment.Index? || segment.Slice? || segment.Union? by { ContentKinds(s, segment); }
    }
    BracketKinds(offset, s);
    if |s| >= 2 && s[|s| - 2..] == "()" {
    } else if segment.Index? && ':' !in s && ',' !in s {
      IndexGrammar(offset, s, segment.index);
      assert SpellsContent(s, segment) <==> SpellsInt(s, segment.index) by { IndexContent(s, segment.index); }
    } else if segment.Slice? && ':' in s {
      SliceGrammar(offset, s, segment.start, segment.end);
    } else if segment.Union? && ':' !in s && ',' in s {
      UnionGrammar(offset, s, segment.indices);
    }
  }

  lemma IndexContent(s: string, i: int)
    ensures SpellsContent(s, Index(i)) <==> SpellsInt(s, i)
  {
  }

  lemma ContentKinds(s: string, segment: PathSegment)
    requires SpellsContent(s, segment)
    ensures segment.Index? || segment.Slice? || segment.Union?
  {
  }

  lemma BracketKinds(offset: nat, s: string)
    ensures var r := ParseBracket(offset, s);
      r.Ok? ==>
        && (|s| >= 2 ==> s[|s| - 2..] != "()")
        && (':' in s <==> r.value.Slice?) && (':' !in s && ',' in s <==> r.value.Union?)
        && (':' !in s && ',' !in s <==> r.value.Index?)
  {
    hide ParseInt, ParseInts, ParseBound, Split;
  }

  lemma PaddedContentChars(body: string, content: string)
    requires Pads(body, content) && AreContentChars(content)
    ensures AreContentChars(body)
  {
    var a, b :| AreWhite(a) && AreWhite(b) && body == a + content + b;
    hide IsWhite, IsNumeral;
  }

  lemma ContentIsSome(s: string, segment: PathSegment)
    requires SpellsContent(s, segment)
    ensures s != ""
  {
    hide SpellsInt, SpellsList, SpellsBound;
    ContentChars(s, segment);
    if segment.Index? {
      SpelledIsTight(s, segment.index);
    }
  }

  // Bracketed text of content characters ends at its bracket.
  lemma BracketAt(before: string, body: string, after: string)
    requires AreContentChars(body) && body != ""
    ensures var input, pos := before + "[" + body + "]" + after, |before| + 1;
      && input[pos..pos + |body|] == body && ContentEnd(input, pos, 1) == pos + |body|
      && input[pos] != '?' && input[pos] != '*' && input[pos + |body|] == ']' && input[|before|] == '['
  {
    var input, pos := before + "[" + body + "]" + after, |before| + 1;
    forall k | pos <= k < pos + |body|
      ensures input[k] == body[k - pos] && input[k] != '[' && input[k] != ']' && input[k] != '?' && input[k] != '*'
    {
      assert IsPaddedChar(body[k - pos]) || body[k - pos] == ':' || body[k - pos] == ',';
    }
    ContentEndIs(input, pos, pos + |body|);
  }

  lemma BracketRead(before: string, body: string, after: string, content: string, segment: PathSegment)
    requires Pads(body, content) && IsTight(content) && SpellsContent(content, segment)
    ensures ParseSegment(before + "[" + body + "]" + after, |before|) == Ok((segment, |before| + |body| + 2))
  {
    hide SpellsContent, IsTight, Pads, ParseBracket, Trim, ContentEnd, AreContentChars;
    ContentGrammar(|before| + 1, content, segment);
    PaddedTrims(body, content);
    ContentChars(content, segment);
    ContentIsSome(content, segment);
    PaddedContentChars(body, content);
    assert body != "" by { assert Trim(body) == content; EmptyTrims(body); }
    BracketAt(before, body, after);
  }

  lemma EmptyTrims(s: string)
    ensures s == "" ==> Trim(s) == ""
  {
  }

  lemma DotStarRead(before: string, after: string)
    ensures ParseSegment(before + ".*" + after, |before|) == Ok((Wildcard, |before| + 2))
  {
    var input := before + ".*" + after;
    assert input[|before|] == '.' && input[|before| + 1] == '*';
  }

  lemma Around(before: string, a: string, b: string, c: string, after: string)
    ensures before + (a + b + c) + after == before + a + b + c + after
  {
  }

  // A segment's text is read as the segment, whatever is around it.
  lemma SegmentRead(before: string, s: string, after: string, segment: PathSegment)
    requires SpellsSegment(s, segment) && IsTail(after)
    ensures ParseSegment(before + s + after, |before|) == Ok((segment, |before| + |s|))
  {
    hide ParseSegment, Pads, IsTight, SpellsContent;
    if segment.Field? {
      assert Spellable(segment) by { CharsAre(); }
      Around(before, ".", segment.name, "", after);
      assert "." + segment.name + "" == s && before + "." + segment.name + "" == before + "." + segment.name;
      FieldReads(before, segment.name, after);
    } else if segment.Wildcard? {
      if s == ".*" {
        DotStarRead(before, after);
      } else {
        WildcardReads(before, after);
      }
    } else {
      var body, content :|
        s == "[" + body + "]" && Pads(body, content) && IsTight(content) && SpellsContent(content, segment);
      Around(before, "[", body, "]", after);
      BracketRead(before, body, after, content, segment);
    }
  }

  // What is read as a segment is its text.
  lemma ReadSegment(input: string, pos: nat)
    requires pos < |input| && ParseSegment(input, pos).Ok?
    ensures var r := ParseSegment(input, pos).value;
      pos < r.1 <= |input| && SpellsSegment(input[pos..r.1], r.0)
  {
    hide ParseBracket, Trim, SpellsContent, Pads, IsTight, IsLetter, IsNumeral;
    if input[pos] == '.' {
      ReadDotText(input, pos);
    } else {
      ReadBracketText(input, pos);
    }
  }

  lemma ReadDotText(input: string, pos: nat)
    requires pos < |input| && input[pos] == '.' && ParseDot(input, pos + 1).Ok?
    ensures var r := ParseDot(input, pos + 1).value; SpellsSegment(input[pos..r.1], r.0)
  {
    var r := ParseDot(input, pos + 1).value;
    CharsAre();
    hide IsLetter, IsNumeral, IsFieldChar;
    if r.0.Field? {
      FieldChars(input, pos + 1);
      assert input[pos..r.1] == "." + r.0.name;
      assert forall k :: 0 <= k < |r.0.name| ==> r.0.name[k] == input[pos + 1 + k];
    } else {
      assert input[pos..r.1] == ".*";
    }
  }

  lemma ReadBracketText(input: string, pos: nat)
    requires pos < |input| && input[pos] == '[' && ParseIndexing(input, pos + 1).Ok?
    ensures var r := ParseIndexing(input, pos + 1).value; SpellsSegment(input[pos..r.1], r.0)
  {
    hide ParseBracket, Trim, ContentEnd, SpellsSegment;
    var r := ParseIndexing(input, pos + 1).value;
    if input[pos + 1] == '*' {
      assert input[pos..r.1] == "[*]";
      assert SpellsSegment("[*]", Wildcard) by { StarText(); }
    } else {
      var body := input[pos + 1..r.1 - 1];
      assert ParseBracket(pos + 1, Trim(body)) == Ok(r.0) && input[r.1 - 1] == ']';
      hide ParseIndexing;
      ContentGrammar(pos + 1, Trim(body), r.0);
      BracketText(body, r.0);
      BetweenBrackets(input, pos, r.1 - 1);
    }
  }

  lemma StarText()
    ensures SpellsSegment("[*]", Wildcard)
  {
  }

  lemma BetweenBrackets(input: string, pos: nat, end: nat)
    requires pos < end < |input| && input[pos] == '[' && input[end] == ']'
    ensures input[pos..end + 1] == "[" + input[pos + 1..end] + "]"
  {
  }

  lemma BracketText(body: string, segment: PathSegment)
    requires SpellsContent(Trim(body), segment)
    ensures SpellsSegment("[" + body + "]", segment)
  {
    TrimPads(body);
    hide SpellsContent, Pads, IsTight, Trim, IsLetter, IsNumeral;
    ContentKinds(Trim(body), segment);
    var s, content := "[" + body + "]", Trim(body);
    assert s == "[" + body + "]" && Pads(body, content) && IsTight(content) && SpellsContent(content, segment);
  }

  lemma TextIsTail(s: string, path: seq<PathSegment>)
    requires SpellsPath(s, path)
    ensures IsTail(s)
  {
    hide Pads, IsTight, SpellsContent;
    if path != [] {
      var a, b :| s == a + b && SpellsSegment(a, path[0]) && SpellsPath(b, path[1..]);
      assert a != "" && (a[0] == '.' || a[0] == '[') && s[0] == a[0];
    }
  }

  lemma {:induction false} PathRead(before: string, s: string, path: seq<PathSegment>)
    requires SpellsPath(s, path)
    ensures ParseFrom(before + s, |before|) == Ok(path)
    decreases |path|
  {
    hide ParseSegment, SpellsSegment;
    if path == [] {
      assert before + s == before;
    } else {
      var a, b :| s == a + b && SpellsSegment(a, path[0]) && SpellsPath(b, path[1..]);
      TextIsTail(b, path[1..]);
      assert before + s == before + a + b;
      SegmentRead(before, a, b, path[0]);
      PathRead(before + a, b, path[1..]);
      assert path == [path[0]] + path[1..] && |before| < |before + s| by { SegmentIsSome(a, path[0]); }
    }
  }

  lemma SegmentIsSome(s: string, segment: PathSegment)
    requires SpellsSegment(s, segment)
    ensures s != ""
  {
  }

  lemma {:induction false} ReadPath(input: string, pos: nat)
    requires pos <= |input| && ParseFrom(input, pos).Ok?
    ensures SpellsPath(input[pos..], ParseFrom(input, pos).value)
    decreases |input| - pos
  {
    hide ParseSegment, SpellsSegment;
    if pos < |input| {
      var (segment, next) := ParseSegment(input, pos).value;
      ReadSegment(input, pos);
      ReadPath(input, next);
      var path := ParseFrom(input, pos).value;
      assert path[0] == segment && path[1..] == ParseFrom(input, next).value;
      assert input[pos..] == input[pos..next] + input[next..];
    }
  }

  // The parser accepts just the texts of paths, each for its path.
  lemma ParsesExactly(input: string, path: seq<PathSegment>)
    ensures Parse(input) == Ok(path) <==> exists s :: input == "$" + s && SpellsPath(s, path)
  {
    hide ParseFrom, SpellsPath;
    if s :| input == "$" + s && SpellsPath(s, path) {
      PathRead("$", s, path);
    }
    if Parse(input) == Ok(path) {
      ReadPath(input, 1);
      assert input == "$" + input[1..];
    }
  }

  lemma BoundErrors(offset: nat, s: string)
    ensures ParseBound(offset, s).Error? ==> ParseBound(offset, s) == Error(offset, NotAnInteger)
  {
    hide Trim, NatOf;
  }

  lemma {:induction false} IntsErrors(offset: nat, parts: seq<string>)
    ensures ParseInts(offset, parts).Error? ==> ParseInts(offset, parts) == Error(offset, NotAnInteger)
  {
    hide Trim, NatOf;
    if parts != [] {
      IntsErrors(offset, parts[1..]);
    }
  }

  // Bracket content that is no content of a segment is a call if it ends like
  // one, or else a slice with a step if it has two colons, or else no integer
  // where one is due.
  lemma BracketErrors(offset: nat, s: string)
    ensures var r := ParseBracket(offset, s);
      r.Error? ==> r == Error(offset,
        if |s| >= 2 && s[|s| - 2] == '(' && s[|s| - 1] == ')' then FunctionCall
        else if !HasOneColon(s) then SliceStep
        else NotAnInteger)
  {
    hide Trim, NatOf, ParseInts, ParseBound, Split;
    assert |s| >= 2 ==> s[|s| - 2..] == [s[|s| - 2], s[|s| - 1]];
    IntsErrors(offset, Split(s, ','));
    var parts := Split(s, ':');
    BoundErrors(offset, parts[0]);
    if |parts| > 1 {
      BoundErrors(offset, parts[1]);
    }
    ColonParts(s);
  }

  lemma {:induction false} ColonParts(s: string)
    ensures |Split(s, ':')| <= 2 <==> HasOneColon(s)
  {
    if |Split(s, ':')| <= 2 {
      TwoPartsOneColon(s);
    }
    if HasOneColon(s) && ':' in s {
      var a, b := FirstMark(s, ':');
      SplitFirst(a, b, ':');
      assert s[|a|] == ':' && forall k :: 0 <= k < |b| ==> b[k] == s[|a| + 1 + k];
      SplitNone(b, ':');
    }
  }
}
