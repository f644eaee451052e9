// Reading JSONPath expressions: the parser, the spelling of a path, and why
// the one undoes the other.
module JsonPathParser {
  import opened Types
  import opened JsonPath

  datatype Reason =
    | MissingRoot | RecursiveDescent | MissingField | FunctionCall | Filter
    | ExpectedBracket | UnexpectedCharacter | SliceStep | NotAnInteger

  datatype Result<+T> = Ok(value: T) | Error(offset: nat, reason: Reason)

  const MIN_INT: int := -0x8000_0000_0000_0000
  const MAX_INT: int := 0x7FFF_FFFF_FFFF_FFFF

  predicate IsDigit(c: char) { '0' <= c <= '9' }

  predicate IsFieldChar(c: char) {
    IsDigit(c) || 'a' <= c <= 'z' || 'A' <= c <= 'Z' || c == '_'
  }

  predicate IsBlank(c: char) { c == ' ' || '\t' <= c <= '\r' }

  function TrimStart(s: string): string {
    if s != "" && IsBlank(s[0]) then TrimStart(s[1..]) else s
  }

  function TrimEnd(s: string): string {
    if s != "" && IsBlank(s[|s| - 1]) then TrimEnd(s[..|s| - 1]) else s
  }

  function Trim(s: string): string { TrimEnd(TrimStart(s)) }

  function Split(s: string, sep: char): (parts: seq<string>)
    ensures |parts| >= 1 && (|parts| == 1 <==> sep !in s)
  {
    if s == "" then [""]
    else
      var rest := Split(s[1..], sep);
      if s[0] == sep then [""] + rest else [[s[0]] + rest[0]] + rest[1..]
  }

  predicate AllDigits(s: string) {
    forall k :: 0 <= k < |s| ==> IsDigit(s[k])
  }

  function NatOf(s: string): nat
    requires AllDigits(s)
  {
    if s == "" then 0 else NatOf(s[..|s| - 1]) * 10 + (s[|s| - 1] - '0') as nat
  }

  // An optionally signed decimal that fits the machine integer.
  function ParseInt(offset: nat, s: string): Result<int> {
    var digits := if s != "" && (s[0] == '-' || s[0] == '+') then s[1..] else s;
    if digits == "" || !AllDigits(digits) then Error(offset, NotAnInteger)
    else
      var value: int := if s[0] == '-' then -(NatOf(digits) as int) else NatOf(digits) as int;
      if MIN_INT <= value <= MAX_INT then Ok(value) else Error(offset, NotAnInteger)
  }

  function ParseBound(offset: nat, s: string): Result<Option<int>> {
    if Trim(s) == "" then Ok(None)
    else
      match ParseInt(offset, Trim(s))
      case Ok(i) => Ok(Some(i))
      case Error(at, why) => Error(at, why)
  }

  function ParseInts(offset: nat, parts: seq<string>): Result<seq<int>> {
    if parts == [] then Ok([])
    else
      match ParseInt(offset, Trim(parts[0]))
      case Error(at, why) => Error(at, why)
      case Ok(i) =>
        match ParseInts(offset, parts[1..])
        case Error(at, why) => Error(at, why)
        case Ok(rest) => Ok([i] + rest)
  }

  function ParseBracket(offset: nat, content: string): Result<PathSegment> {
    if |content| >= 2 && content[|content| - 2..] == "()" then Error(offset, FunctionCall)
    else if ':' in content then
      var parts := Split(content, ':');
      if |parts| > 2 then Error(offset, SliceStep)
      else
        match ParseBound(offset, parts[0])
        case Error(at, why) => Error(at, why)
        case Ok(start) =>
          match ParseBound(offset, parts[1])
          case Error(at, why) => Error(at, why)
          case Ok(end) => Ok(Slice(start, end))
    else if ',' in content then
      match ParseInts(offset, Split(content, ','))
      case Error(at, why) => Error(at, why)
      case Ok(indices) => Ok(Union(indices))
    else
      match ParseInt(offset, content)
      case Error(at, why) => Error(at, why)
      case Ok(i) => Ok(Index(i))
  }

  // Where the field name that starts at pos ends.
  function FieldEnd(input: string, pos: nat): (end: nat)
    requires pos <= |input|
    ensures pos <= end <= |input|
    decreases |input| - pos
  {
    if pos < |input| && IsFieldChar(input[pos]) then FieldEnd(input, pos + 1) else pos
  }

  // Where the bracket content that starts at pos ends: at the closing
  // bracket, nested ones skipped, or at the end of the input.
  function ContentEnd(input: string, pos: nat, depth: nat): (end: nat)
    requires pos <= |input|
    ensures pos <= end <= |input|
    decreases |input| - pos
  {
    if pos == |input| || depth == 0 then pos
    else if input[pos] == ']' then
      if depth == 1 then pos else ContentEnd(input, pos + 1, depth - 1)
    else
      ContentEnd(input, pos + 1, if input[pos] == '[' then depth + 1 else depth)
  }

  // The segment at pos and where it ends.
  function ParseSegment(input: string, pos: nat): (r: Result<(PathSegment, nat)>)
    requires pos < |input|
    ensures r.Ok? ==> pos < r.value.1 <= |input|
  {
    if input[pos] == '.' then ParseDot(input, pos + 1)
    else if input[pos] == '[' then ParseIndexing(input, pos + 1)
    else Error(pos, UnexpectedCharacter)
  }

  function ParseDot(input: string, pos: nat): (r: Result<(PathSegment, nat)>)
    requires 0 < pos <= |input|
    ensures r.Ok? ==> pos < r.value.1 <= |input|
  {
    if pos < |input| && input[pos] == '.' then Error(pos - 1, RecursiveDescent)
    else if pos < |input| && input[pos] == '*' then Ok((Wildcard, pos + 1))
    else
      var end := FieldEnd(input, pos);
      if end == pos then Error(pos, MissingField)
      else if end < |input| && input[end] == '(' then Error(pos, FunctionCall)
      else Ok((Field(input[pos..end]), end))
  }

  function ParseIndexing(input: string, pos: nat): (r: Result<(PathSegment, nat)>)
    requires 0 < pos <= |input|
    ensures r.Ok? ==> pos < r.value.1 <= |input|
  {
    if pos < |input| && input[pos] == '?' then Error(pos - 1, Filter)
    else if pos < |input| && input[pos] == '*' then
      if pos + 1 < |input| && input[pos + 1] == ']' then Ok((Wildcard, pos + 2)) else Error(pos + 1, ExpectedBracket)
    else
      var end := ContentEnd(input, pos, 1);
      if end < |input| && input[end] == ']' then
        match ParseBracket(pos, Trim(input[pos..end]))
        case Error(at, why) => Error(at, why)
        case Ok(segment) => Ok((segment, end + 1))
      else Error(end, ExpectedBracket)
  }

  function ParseFrom(input: string, pos: nat): Result<seq<PathSegment>>
    requires pos <= |input|
    decreases |input| - pos
  {
    if pos == |input| then Ok([])
    else
      match ParseSegment(input, pos)
      case Error(at, why) => Error(at, why)
      case Ok((segment, next)) =>
        match ParseFrom(input, next)
        case Error(at, why) => Error(at, why)
        case Ok(rest) => Ok([segment] + rest)
  }

  function Parse(input: string): Result<seq<PathSegment>> {
    if input == "" || input[0] != '$' then Error(0, MissingRoot) else ParseFrom(input, 1)
  }

  // What remains to be read decides whether all succeeds.
  function Continued(segments: seq<PathSegment>, rest: Result<seq<PathSegment>>): Result<seq<PathSegment>> {
    match rest
    case Error(at, why) => Error(at, why)
    case Ok(more) => Ok(segments + more)
  }

  // The parser advances a position over the input.
  method ParsePath(input: string) returns (r: Result<seq<PathSegment>>)
    ensures r == Parse(input)
  {
    if input == "" || input[0] != '$' {
      return Error(0, MissingRoot);
    }
    hide ParseDot, ParseIndexing, Parse;
    var pos: nat := 1;
    var segments: seq<PathSegment> := [];
    assert Parse(input) == ParseFrom(input, 1) by { Rooted(input); }
    assert forall more: seq<PathSegment> :: [] + more == more;
    while pos < |input|
      invariant pos <= |input|
      invariant Parse(input) == Continued(segments, ParseFrom(input, pos))
      decreases |input| - pos
    {
      var next: Result<(PathSegment, nat)>;
      if input[pos] == '.' {
        next := ReadDot(input, pos + 1);
      } else if input[pos] == '[' {
        next := ReadIndexing(input, pos + 1);
      } else {
        next := Error(pos, UnexpectedCharacter);
      }
      assert next == ParseSegment(input, pos);
      match next {
        case Error(at, why) => return Error(at, why);
        case Ok((segment, end)) =>
          assert forall more: seq<PathSegment> :: segments + ([segment] + more) == (segments + [segment]) + more;
          segments := segments + [segment];
          pos := end;
      }
    }
    assert segments + [] == segments;
    r := Ok(segments);
  }

  lemma Rooted(input: string)
    requires input != "" && input[0] == '$'
    ensures Parse(input) == ParseFrom(input, 1)
  {
  }

  method ReadDot(input: string, start: nat) returns (r: Result<(PathSegment, nat)>)
    requires 0 < start <= |input|
    ensures r == ParseDot(input, start)
  {
    if start < |input| && input[start] == '.' {
      return Error(start - 1, RecursiveDescent);
    }
    if start < |input| && input[start] == '*' {
      return Ok((Wildcard, start + 1));
    }
    var pos := start;
    while pos < |input| && IsFieldChar(input[pos])
      invariant start <= pos <= |input| && FieldEnd(input, start) == FieldEnd(input, pos)
    {
      pos := pos + 1;
    }
    if pos == start {
      return Error(pos, MissingField);
    }
    if pos < |input| && input[pos] == '(' {
      return Error(start, FunctionCall);
    }
    r := Ok((Field(input[start..pos]), pos));
  }

  method ReadIndexing(input: string, start: nat) returns (r: Result<(PathSegment, nat)>)
    requires 0 < start <= |input|
    ensures r == ParseIndexing(input, start)
  {
    hide ParseBracket, Trim;
    if start < |input| && input[start] == '?' {
      return Error(start - 1, Filter);
    }
    if start < |input| && input[start] == '*' {
      return if start + 1 < |input| && input[start + 1] == ']' then Ok((Wildcard, start + 2))
        else Error(start + 1, ExpectedBracket);
    }
    var end := ReadContent(input, start);
    if end == |input| || input[end] != ']' {
      return Error(end, ExpectedBracket);
    }
    match ParseBracket(start, Trim(input[start..end]))
    case Error(at, why) => r := Error(at, why);
    case Ok(segment) => r := Ok((segment, end + 1));
  }

  method ReadContent(input: string, start: nat) returns (end: nat)
    requires start <= |input|
    ensures end == ContentEnd(input, start, 1)
  {
    end := start;
    var depth := 1;
    while end < |input| && depth > 0
      invariant start <= end <= |input| && depth >= 0
      invariant ContentEnd(input, start, 1) == ContentEnd(input, end, depth)
      decreases |input| - end
    {
      if input[end] == ']' {
        if depth == 1 {
          break;
        }
        depth := depth - 1;
      } else if input[end] == '[' {
        depth := depth + 1;
      }
      end := end + 1;
    }
  }

  function DigitOf(d: nat): (c: char)
    requires d < 10
    ensures IsDigit(c) && (c - '0') as nat == d
  {
    '0' + d as char
  }

  function Decimal(n: nat): (s: string)
    ensures s != "" && AllDigits(s)
  {
    if n < 10 then [DigitOf(n)] else Decimal(n / 10) + [DigitOf(n % 10)]
  }

  function IntText(i: int): (s: string)
    ensures s != ""
  {
    if i < 0 then "-" + Decimal(-i) else Decimal(i)
  }

  function BoundText(b: Option<int>): string {
    if b.Some? then IntText(b.value) else ""
  }

  function Joined(indices: seq<int>): string {
    if indices == [] then ""
    else if |indices| == 1 then IntText(indices[0])
    else IntText(indices[0]) + "," + Joined(indices[1..])
  }

  function Content(segment: PathSegment): string
    requires !segment.Field?
  {
    match segment
    case Index(i) => IntText(i)
    case Slice(start, end) => BoundText(start) + ":" + BoundText(end)
    case Wildcard => "*"
    case Union(indices) => Joined(indices)
  }

  // A segment as documented.
  function Spell(segment: PathSegment): (s: string)
    ensures s != ""
  {
    if segment.Field? then "." + segment.name else "[" + Content(segment) + "]"
  }

  function SpellAll(path: seq<PathSegment>): string {
    if path == [] then "" else Spell(path[0]) + SpellAll(path[1..])
  }

  predicate FitsInt(i: int) { MIN_INT <= i <= MAX_INT }

  // Segments that can be written down.
  predicate Spellable(segment: PathSegment) {
    match segment
    case Field(name) => name != "" && forall k :: 0 <= k < |name| ==> IsFieldChar(name[k])
    case Index(i) => FitsInt(i)
    case Slice(start, end) => (start.Some? ==> FitsInt(start.value)) && (end.Some? ==> FitsInt(end.value))
    case Wildcard => true
    case Union(indices) => |indices| >= 2 && forall k :: 0 <= k < |indices| ==> FitsInt(indices[k])
  }

  predicate AllSpellable(path: seq<PathSegment>) {
    forall k :: 0 <= k < |path| ==> Spellable(path[k])
  }

  lemma {:induction false} DecimalReads(n: nat)
    ensures NatOf(Decimal(n)) == n
  {
    if n >= 10 {
      DecimalReads(n / 10);
      assert Decimal(n)[..|Decimal(n)| - 1] == Decimal(n / 10);
    } else {
      assert Decimal(n)[..0] == "";
    }
  }

  lemma IntTextReads(offset: nat, i: int)
    requires FitsInt(i)
    ensures ParseInt(offset, IntText(i)) == Ok(i)
  {
    if i < 0 {
      DecimalReads(-i);
      assert IntText(i)[1..] == Decimal(-i);
    } else {
      DecimalReads(i);
      assert IsDigit(Decimal(i)[0]);
    }
  }

  // Characters a number is written with.
  predicate IsNumberChar(c: char) { IsDigit(c) || c == '-' }

  predicate AllNumberChars(s: string) {
    forall k :: 0 <= k < |s| ==> IsNumberChar(s[k])
  }

  lemma IntTextChars(i: int)
    ensures AllNumberChars(IntText(i))
  {
    var digits := if i < 0 then Decimal(-i) else Decimal(i);
    assert forall k :: 0 <= k < |digits| ==> IsDigit(digits[k]);
  }

  lemma TrimKeeps(s: string)
    requires s == "" || (!IsBlank(s[0]) && !IsBlank(s[|s| - 1]))
    ensures Trim(s) == s
  {
  }

  lemma NumberIsTrimmed(s: string)
    requires AllNumberChars(s)
    ensures Trim(s) == s
  {
    if s != "" {
      assert IsNumberChar(s[0]) && IsNumberChar(s[|s| - 1]);
    }
    TrimKeeps(s);
  }

  lemma {:induction false} SplitNone(s: string, sep: char)
    requires sep !in s
    ensures Split(s, sep) == [s]
  {
    if s != "" {
      SplitNone(s[1..], sep);
      assert s == [s[0]] + s[1..];
    }
  }

  lemma {:induction false} SplitFirst(s: string, t: string, sep: char)
    requires sep !in s
    ensures Split(s + [sep] + t, sep) == [s] + Split(t, sep)
  {
    var all := s + [sep] + t;
    if s == "" {
      assert all[1..] == t;
    } else {
      assert all[1..] == s[1..] + [sep] + t;
      SplitFirst(s[1..], t, sep);
      assert s == [s[0]] + s[1..];
    }
  }

  lemma NoSeparator(s: string, sep: char)
    requires AllNumberChars(s) && !IsNumberChar(sep)
    ensures sep !in s
  {
  }

  lemma BoundReads(offset: nat, b: Option<int>)
    requires b.Some? ==> FitsInt(b.value)
    ensures AllNumberChars(BoundText(b)) && ParseBound(offset, BoundText(b)) == Ok(b)
  {
    if b.Some? {
      IntTextChars(b.value);
      IntTextReads(offset, b.value);
    }
    NumberIsTrimmed(BoundText(b));
  }

  // Numbers separated by commas, not starting or ending with one.
  ghost predicate IsNumberList(s: string) {
    && s != "" && (forall k :: 0 <= k < |s| ==> IsNumberChar(s[k]) || s[k] == ',')
    && IsNumberChar(s[0]) && IsNumberChar(s[|s| - 1])
  }

  lemma NumberListCons(first: string, rest: string)
    requires first != "" && AllNumberChars(first)
    ensures IsNumberList(first)
    ensures IsNumberList(rest) ==> IsNumberList(first + "," + rest) && ',' in first + "," + rest
  {
    var all := first + "," + rest;
    if IsNumberList(rest) {
      assert all[|first|] == ',' && all[0] == first[0] && all[|all| - 1] == rest[|rest| - 1];
      forall k | 0 <= k < |all|
        ensures IsNumberChar(all[k]) || all[k] == ','
      {
        if k > |first| {
          assert all[k] == rest[k - |first| - 1];
        }
      }
    }
  }

  lemma {:induction false} JoinedChars(indices: seq<int>)
    requires indices != []
    ensures IsNumberList(Joined(indices)) && (|indices| > 1 ==> ',' in Joined(indices))
  {
    var first := IntText(indices[0]);
    IntTextChars(indices[0]);
    hide IntText, IsNumberList;
    NumberListCons(first, if |indices| > 1 then Joined(indices[1..]) else "");
    if |indices| > 1 {
      JoinedChars(indices[1..]);
    }
  }

  lemma {:induction false} JoinedReads(offset: nat, indices: seq<int>)
    requires indices != [] && forall k :: 0 <= k < |indices| ==> FitsInt(indices[k])
    ensures ParseInts(offset, Split(Joined(indices), ',')) == Ok(indices)
  {
    var first := IntText(indices[0]);
    IntTextChars(indices[0]);
    IntTextReads(offset, indices[0]);
    NumberIsTrimmed(first);
    NoSeparator(first, ',');
    hide IntText, ParseInt, Trim, Split;
    assert indices == [indices[0]] + indices[1..];
    if |indices| == 1 {
      SplitNone(first, ',');
      assert ParseInts(offset, []) == Ok([]);
    } else {
      JoinedReads(offset, indices[1..]);
      SplitFirst(first, Joined(indices[1..]), ',');
      FirstReads(offset, first, indices[0], Split(Joined(indices[1..]), ','), indices[1..]);
    }
  }

  lemma FirstReads(offset: nat, first: string, i: int, parts: seq<string>, rest: seq<int>)
    requires ParseInt(offset, Trim(first)) == Ok(i) && ParseInts(offset, parts) == Ok(rest)
    ensures ParseInts(offset, [first] + parts) == Ok([i] + rest)
  {
    hide ParseInt, Trim;
    assert ([first] + parts)[1..] == parts;
  }

  // What bracket content looks like when it is spelled.
  predicate IsContentChar(c: char) {
    IsNumberChar(c) || c == ',' || c == ':'
  }

  predicate AllContentChars(s: string) {
    forall k :: 0 <= k < |s| ==> IsContentChar(s[k])
  }

  lemma IndexReads(offset: nat, i: int)
    requires FitsInt(i)
    ensures ParseBracket(offset, IntText(i)) == Ok(Index(i)) && AllContentChars(IntText(i))
  {
    IntTextReads(offset, i);
    IntTextChars(i);
    hide IntText, ParseInt, Split;
    NoSeparator(IntText(i), ':');
    NoSeparator(IntText(i), ',');
    NoCall(IntText(i));
  }

  lemma SliceReads(offset: nat, start: Option<int>, end: Option<int>)
    requires (start.Some? ==> FitsInt(start.value)) && (end.Some? ==> FitsInt(end.value))
    ensures var content := BoundText(start) + ":" + BoundText(end);
      ParseBracket(offset, content) == Ok(Slice(start, end)) && AllContentChars(content)
  {
    BoundReads(offset, start);
    BoundReads(offset, end);
    var a, b := BoundText(start), BoundText(end);
    BetweenColon(a, b);
    NoSeparator(a, ':');
    NoSeparator(b, ':');
    hide BoundText, ParseBound, Split, ParseInts, ParseInt, ParseBracket, AllContentChars, AllNumberChars, IsNumberChar;
    NoCall(a + ":" + b);
    SplitAtColon(a, b);
    SliceParsed(offset, a, b, start, end);
  }

  lemma SplitAtColon(a: string, b: string)
    requires ':' !in a && ':' !in b
    ensures Split(a + ":" + b, ':') == [a, b]
  {
    hide Split;
    SplitFirst(a, b, ':');
    SplitNone(b, ':');
    assert a + ":" + b == a + [':'] + b;
  }

  lemma SliceParsed(offset: nat, a: string, b: string, start: Option<int>, end: Option<int>)
    requires ParseBound(offset, a) == Ok(start) && ParseBound(offset, b) == Ok(end)
    requires var content := a + ":" + b;
      Split(content, ':') == [a, b] && (|content| >= 2 ==> content[|content| - 2..] != "()")
    ensures ParseBracket(offset, a + ":" + b) == Ok(Slice(start, end))
  {
    hide ParseBound, ParseInts, ParseInt, Split;
    assert (a + ":" + b)[|a|] == ':';
  }

  lemma BetweenColon(a: string, b: string)
    requires AllContentChars(a) && AllContentChars(b)
    ensures AllContentChars(a + ":" + b)
  {
    hide IsContentChar;
    assert IsContentChar(':') by { ColonIsContent(); }
    forall k | 0 <= k < |a + ":" + b|
      ensures IsContentChar((a + ":" + b)[k])
    {
      assert k > |a| ==> (a + ":" + b)[k] == b[k - |a| - 1];
    }
  }

  lemma ColonIsContent()
    ensures IsContentChar(':')
  {
  }

  lemma NumberListIsContent(s: string)
    requires IsNumberList(s)
    ensures AllContentChars(s) && ':' !in s && s != "" && (|s| >= 2 ==> s[|s| - 2..] != "()")
  {
    assert forall k :: 0 <= k < |s| ==> s[k] != ':';
    NoCall(s);
  }

  lemma UnionReads(offset: nat, indices: seq<int>)
    requires |indices| >= 2 && forall k :: 0 <= k < |indices| ==> FitsInt(indices[k])
    ensures ParseBracket(offset, Joined(indices)) == Ok(Union(indices))
    ensures AllContentChars(Joined(indices)) && Joined(indices) != ""
  {
    JoinedReads(offset, indices);
    JoinedChars(indices);
    hide Joined, ParseInts, Split, ParseInt, IsNumberList, AllContentChars;
    NumberListIsContent(Joined(indices));
  }

  lemma ContentReads(offset: nat, segment: PathSegment)
    requires Spellable(segment) && !segment.Field? && !segment.Wildcard?
    ensures ParseBracket(offset, Content(segment)) == Ok(segment)
    ensures AllContentChars(Content(segment)) && Content(segment) != ""
  {
    hide ParseBracket, AllContentChars;
    match segment
    case Index(i) => IndexReads(offset, i);
    case Slice(start, end) => SliceReads(offset, start, end);
    case Union(indices) => UnionReads(offset, indices);
  }

  lemma NoCall(s: string)
    requires AllContentChars(s)
    ensures |s| >= 2 ==> s[|s| - 2..] != "()"
  {
    if |s| >= 2 {
      assert IsContentChar(s[|s| - 1]) && s[|s| - 2..][1] == s[|s| - 1];
    }
  }

  lemma {:induction false} ContentEndIs(input: string, pos: nat, end: nat)
    requires pos <= end < |input| && input[end] == ']'
    requires forall k :: pos <= k < end ==> input[k] != ']' && input[k] != '['
    ensures ContentEnd(input, pos, 1) == end
    decreases end - pos
  {
    if pos < end {
      ContentEndIs(input, pos + 1, end);
    }
  }

  lemma {:induction false} FieldEndIs(input: string, pos: nat, end: nat)
    requires pos <= end <= |input| && (end < |input| ==> !IsFieldChar(input[end]))
    requires forall k :: pos <= k < end ==> IsFieldChar(input[k])
    ensures FieldEnd(input, pos) == end
    decreases end - pos
  {
    if pos < end {
      FieldEndIs(input, pos + 1, end);
    }
  }

  // What may follow a segment.
  predicate IsTail(s: string) { s == "" || s[0] == '.' || s[0] == '[' }

  lemma SpelledContent(before: string, content: string, after: string)
    requires AllContentChars(content) && content != ""
    ensures var input, pos := before + "[" + content + "]" + after, |before| + 1;
      && input[pos..pos + |content|] == content && ContentEnd(input, pos, 1) == pos + |content|
      && input[pos] != '?' && input[pos] != '*' && input[pos + |content|] == ']'
      && input[|before|] == '[' && Trim(content) == content
  {
    var input, pos := before + "[" + content + "]" + after, |before| + 1;
    forall k | pos <= k < pos + |content|
      ensures input[k] == content[k - pos] && IsContentChar(input[k])
    {
    }
    ContentEndIs(input, pos, pos + |content|);
    assert IsContentChar(content[0]) && IsContentChar(content[|content| - 1]);
    TrimKeeps(content);
  }

  lemma FieldReads(before: string, name: string, after: string)
    requires Spellable(Field(name)) && IsTail(after)
    ensures var input := before + "." + name + after;
      ParseSegment(input, |before|) == Ok((Field(name), |before| + 1 + |name|))
  {
    var input, pos := before + "." + name + after, |before| + 1;
    forall k | pos <= k < pos + |name|
      ensures input[k] == name[k - pos] && IsFieldChar(input[k])
    {
    }
    var end := pos + |name|;
    assert end < |input| ==> input[end] == after[0];
    FieldEndIs(input, pos, end);
    assert input[pos..end] == name;
    assert IsFieldChar(input[pos]);
  }

  lemma BracketReads(before: string, segment: PathSegment, after: string)
    requires Spellable(segment) && !segment.Field? && !segment.Wildcard?
    ensures var content := Content(segment);
      ParseSegment(before + "[" + content + "]" + after, |before|) == Ok((segment, |before| + |content| + 2))
  {
    hide ParseBracket, Content, ContentEnd, Trim, AllContentChars;
    var content := Content(segment);
    ContentReads(|before| + 1, segment);
    SpelledContent(before, content, after);
  }

  lemma WildcardReads(before: string, after: string)
    ensures ParseSegment(before + "[*]" + after, |before|) == Ok((Wildcard, |before| + 3))
  {
    var input := before + "[*]" + after;
    assert input[|before|] == '[' && input[|before| + 1] == '*' && input[|before| + 2] == ']';
  }

  lemma Inline(before: string, a: string, b: string, c: string, after: string)
    ensures before + (a + b + c) + after == before + a + b + c + after
  {
  }

  // A spelled segment is read back, whatever is around it.
  lemma SegmentReads(before: string, segment: PathSegment, after: string)
    requires Spellable(segment) && IsTail(after) && before != ""
    ensures ParseSegment(before + Spell(segment) + after, |before|) == Ok((segment, |before| + |Spell(segment)|))
  {
    hide ParseSegment, Spellable, Content;
    if segment.Field? {
      Inline(before, ".", segment.name, "", after);
      assert "." + segment.name + "" == Spell(segment);
      assert before + "." + segment.name + "" == before + "." + segment.name;
      FieldReads(before, segment.name, after);
    } else if segment.Wildcard? {
      WildcardContent();
      assert Spell(segment) == "[*]";
      WildcardReads(before, after);
    } else {
      Inline(before, "[", Content(segment), "]", after);
      BracketReads(before, segment, after);
    }
  }

  lemma WildcardContent()
    ensures Content(Wildcard) == "*" && Spell(Wildcard) == "[*]"
  {
  }

  lemma TailIsTail(path: seq<PathSegment>)
    ensures IsTail(SpellAll(path))
  {
    if path != [] {
      assert SpellAll(path)[0] == Spell(path[0])[0];
    }
  }

  lemma SpellNext(before: string, path: seq<PathSegment>)
    requires path != []
    ensures before + SpellAll(path) == before + Spell(path[0]) + SpellAll(path[1..])
  {
    hide Spell;
  }

  lemma {:induction false} PathReads(before: string, path: seq<PathSegment>)
    requires AllSpellable(path) && before != ""
    ensures ParseFrom(before + SpellAll(path), |before|) == Ok(path)
    decreases |path|
  {
    hide ParseSegment, Spell, Spellable;
    if path == [] {
      assert before + "" == before;
    } else {
      SpellNext(before, path);
      TailIsTail(path[1..]);
      SegmentReads(before, path[0], SpellAll(path[1..]));
      PathReads(before + Spell(path[0]), path[1..]);
      hide SpellAll;
      assert path == [path[0]] + path[1..];
    }
  }

  // Parsing gives back every path from its spelling.
  lemma ParseSpelled(path: seq<PathSegment>)
    requires AllSpellable(path)
    ensures Parse("$" + SpellAll(path)) == Ok(path)
  {
    PathReads("$", path);
  }

  lemma ParsedIntFits(offset: nat, s: string)
    ensures ParseInt(offset, s).Ok? ==> FitsInt(ParseInt(offset, s).value)
  {
  }

  lemma {:induction false} ParsedIntsFit(offset: nat, parts: seq<string>)
    ensures var r := ParseInts(offset, parts);
      r.Ok? ==> |r.value| == |parts| && forall k :: 0 <= k < |r.value| ==> FitsInt(r.value[k])
  {
    if parts != [] {
      hide ParseInt, Trim;
      ParsedIntFits(offset, Trim(parts[0]));
      ParsedIntsFit(offset, parts[1..]);
    }
  }

  lemma {:induction false} FieldChars(input: string, pos: nat)
    requires pos <= |input|
    ensures forall k :: pos <= k < FieldEnd(input, pos) ==> IsFieldChar(input[k])
    decreases |input| - pos
  {
    if pos < |input| && IsFieldChar(input[pos]) {
      FieldChars(input, pos + 1);
    }
  }

  lemma ParsedSegmentIsSpellable(input: string, pos: nat)
    requires pos < |input|
    ensures ParseSegment(input, pos).Ok? ==> Spellable(ParseSegment(input, pos).value.0)
  {
    if input[pos] == '.' {
      FieldChars(input, pos + 1);
    } else if input[pos] == '[' && ParseIndexing(input, pos + 1).Ok? {
      var end := ContentEnd(input, pos + 1, 1);
      hide ContentEnd, Trim;
      if input[pos + 1] != '*' {
        ParsedBracketIsSpellable(pos + 1, Trim(input[pos + 1..end]));
      }
    }
  }

  lemma ParsedBracketIsSpellable(offset: nat, content: string)
    ensures ParseBracket(offset, content).Ok? ==> Spellable(ParseBracket(offset, content).value)
  {
    hide ParseInt, Trim, Split;
    var parts := Split(content, ':');
    ParsedIntFits(offset, content);
    ParsedIntFits(offset, Trim(parts[0]));
    if |parts| > 1 {
      ParsedIntFits(offset, Trim(parts[1]));
    }
    ParsedIntsFit(offset, Split(content, ','));
  }

  lemma {:induction false} ParsedIsSpellable(input: string, pos: nat)
    requires pos <= |input|
    ensures ParseFrom(input, pos).Ok? ==> AllSpellable(ParseFrom(input, pos).value)
    decreases |input| - pos
  {
    if pos < |input| {
      ParsedSegmentIsSpellable(input, pos);
      hide ParseSegment, Spellable;
      var first := ParseSegment(input, pos);
      if first.Ok? {
        ParsedIsSpellable(input, first.value.1);
      }
    }
  }

  // A path comes from some expression exactly when it is spellable.
  lemma ParseableExactlyWhen(path: seq<PathSegment>)
    ensures (exists input :: Parse(input) == Ok(path)) <==> AllSpellable(path)
  {
    if AllSpellable(path) {
      ParseSpelled(path);
      assert Parse("$" + SpellAll(path)) == Ok(path);
    }
    if input :| Parse(input) == Ok(path) {
      ParsedIsSpellable(input, 1);
    }
  }

  // Characters an accepted bracket holds.
  predicate IsBracketChar(c: char) {
    IsContentChar(c) || c == '+' || IsBlank(c)
  }

  predicate AllBracketChars(s: string) {
    forall k :: 0 <= k < |s| ==> IsBracketChar(s[k])
  }

  lemma {:induction false} TrimStartChars(s: string)
    requires AllBracketChars(TrimStart(s))
    ensures AllBracketChars(s)
  {
    if s != "" && IsBlank(s[0]) {
      TrimStartChars(s[1..]);
      assert s == [s[0]] + s[1..];
    }
  }

  lemma {:induction false} TrimEndChars(s: string)
    requires AllBracketChars(TrimEnd(s))
    ensures AllBracketChars(s)
  {
    if s != "" && IsBlank(s[|s| - 1]) {
      TrimEndChars(s[..|s| - 1]);
      assert s == s[..|s| - 1] + [s[|s| - 1]];
    }
  }

  lemma TrimChars(s: string)
    requires AllBracketChars(Trim(s))
    ensures AllBracketChars(s)
  {
    hide AllBracketChars;
    TrimEndChars(TrimStart(s));
    TrimStartChars(s);
  }

  lemma {:induction false} SplitChars(s: string, sep: char)
    requires IsBracketChar(sep) && forall k :: 0 <= k < |Split(s, sep)| ==> AllBracketChars(Split(s, sep)[k])
    ensures AllBracketChars(s)
  {
    if s != "" {
      var parts, rest := Split(s, sep), Split(s[1..], sep);
      assert s == [s[0]] + s[1..];
      forall k | 0 <= k < |rest|
        ensures AllBracketChars(rest[k])
      {
        if s[0] == sep {
          assert parts[k + 1] == rest[k];
        } else if k > 0 {
          assert parts[k] == rest[k];
        } else {
          assert parts[0] == [s[0]] + rest[0];
          assert AllBracketChars(parts[0]);
          assert forall j :: 0 <= j < |rest[0]| ==> rest[0][j] == parts[0][j + 1];
        }
      }
      SplitChars(s[1..], sep);
      assert s[0] != sep ==> AllBracketChars(parts[0]) && parts[0][0] == s[0];
    }
  }

  lemma ParsedIntChars(offset: nat, s: string)
    requires ParseInt(offset, s).Ok?
    ensures AllBracketChars(s)
  {
    var digits := if s != "" && (s[0] == '-' || s[0] == '+') then s[1..] else s;
    assert forall k :: 0 <= k < |digits| ==> IsDigit(digits[k]);
    assert digits != s ==> forall k :: 0 < k < |s| ==> s[k] == digits[k - 1];
  }

  lemma ParsedBoundChars(offset: nat, s: string)
    requires ParseBound(offset, s).Ok?
    ensures AllBracketChars(s)
  {
    if Trim(s) != "" {
      ParsedIntChars(offset, Trim(s));
    }
    TrimChars(s);
  }

  lemma {:induction false} ParsedIntsChars(offset: nat, parts: seq<string>)
    requires ParseInts(offset, parts).Ok?
    ensures forall k :: 0 <= k < |parts| ==> AllBracketChars(parts[k])
  {
    hide AllBracketChars, ParseInt, Trim;
    if parts != [] {
      ParsedIntChars(offset, Trim(parts[0]));
      TrimChars(parts[0]);
      ParsedIntsChars(offset, parts[1..]);
    }
  }

  lemma ParsedBracketChars(offset: nat, content: string)
    requires ParseBracket(offset, content).Ok?
    ensures AllBracketChars(content)
  {
    hide AllBracketChars, ParseInt, ParseInts, ParseBound, Split;
    if ':' in content {
      var parts := Split(content, ':');
      ParsedBoundChars(offset, parts[0]);
      ParsedBoundChars(offset, parts[1]);
      SplitChars(content, ':');
    } else if ',' in content {
      ParsedIntsChars(offset, Split(content, ','));
      SplitChars(content, ',');
    } else {
      ParsedIntChars(offset, content);
    }
  }

  // No call, filter or recursive descent between two positions.
  predicate IsPlain(input: string, from: nat, to: nat)
    requires from <= to <= |input|
  {
    forall k :: from <= k < to ==>
      input[k] != '(' && input[k] != '?' && !(input[k] == '.' && k + 1 < |input| && input[k + 1] == '.')
  }

  lemma ParsedDotIsPlain(input: string, pos: nat)
    requires 0 < pos <= |input| && input[pos - 1] == '.' && ParseDot(input, pos).Ok?
    ensures IsPlain(input, pos - 1, ParseDot(input, pos).value.1)
  {
    FieldChars(input, pos);
  }

  lemma ParsedIndexingIsPlain(input: string, pos: nat)
    requires 0 < pos <= |input| && input[pos - 1] == '[' && ParseIndexing(input, pos).Ok?
    ensures IsPlain(input, pos - 1, ParseIndexing(input, pos).value.1)
  {
    hide ParseBracket, Trim;
    if input[pos] != '*' {
      var end := ContentEnd(input, pos, 1);
      var content := input[pos..end];
      ParsedBracketChars(pos, Trim(content));
      TrimChars(content);
      assert forall k :: pos <= k < end ==> input[k] == content[k - pos];
    }
  }

  lemma {:induction false} ParsedIsPlain(input: string, pos: nat)
    requires 0 < pos <= |input| && ParseFrom(input, pos).Ok?
    ensures IsPlain(input, pos, |input|)
    decreases |input| - pos
  {
    hide ParseDot, ParseIndexing;
    if pos < |input| {
      if input[pos] == '.' {
        ParsedDotIsPlain(input, pos + 1);
      } else {
        ParsedIndexingIsPlain(input, pos + 1);
      }
      ParsedIsPlain(input, ParseSegment(input, pos).value.1);
    }
  }

  predicate HasOneColon(s: string) {
    forall i, j :: 0 <= i < j < |s| && s[i] == ':' ==> s[j] != ':'
  }

  lemma {:induction false} TwoPartsOneColon(s: string)
    requires |Split(s, ':')| <= 2
    ensures HasOneColon(s)
  {
    if s != "" {
      assert s == [s[0]] + s[1..];
      TwoPartsOneColon(s[1..]);
      assert forall k :: 0 < k < |s| ==> s[k] == s[1..][k - 1];
    }
  }

  lemma {:induction false} TrimStartColon(s: string)
    requires HasOneColon(TrimStart(s))
    ensures HasOneColon(s)
  {
    if s != "" && IsBlank(s[0]) {
      TrimStartColon(s[1..]);
      assert forall k :: 0 < k < |s| ==> s[k] == s[1..][k - 1];
    }
  }

  lemma {:induction false} TrimEndColon(s: string)
    requires HasOneColon(TrimEnd(s))
    ensures HasOneColon(s)
  {
    if s != "" && IsBlank(s[|s| - 1]) {
      TrimEndColon(s[..|s| - 1]);
      assert forall k :: 0 <= k < |s| - 1 ==> s[k] == s[..|s| - 1][k];
    }
  }

  lemma ParsedBracketColon(offset: nat, content: string)
    requires ParseBracket(offset, Trim(content)).Ok?
    ensures HasOneColon(content)
  {
    hide ParseBound, ParseInt, ParseInts, Split, TrimStart, TrimEnd;
    if ':' in Trim(content) {
      TwoPartsOneColon(Trim(content));
    }
    hide HasOneColon;
    assert HasOneColon(Trim(content)) by { NoColon(Trim(content)); }
    TrimEndColon(TrimStart(content));
    TrimStartColon(content);
  }

  lemma NoColon(s: string)
    ensures ':' !in s ==> HasOneColon(s)
  {
  }

  // No two colons within one pair of brackets, so no slice has a step.
  predicate ColonsApart(input: string, from: nat, to: nat)
    requires from <= to <= |input|
  {
    forall i, j :: from <= i < j < to && input[i] == ':' && input[j] == ':' ==> exists k :: i < k < j && input[k] == ']'
  }

  // Colons are in brackets only, and at most one in each.
  predicate IsSegmentText(input: string, from: nat, to: nat)
    requires from <= to <= |input|
  {
    && (forall i, j :: from <= i < j < to && input[i] == ':' ==> input[j] != ':')
    && forall i :: from <= i < to && input[i] == ':' ==> i < to - 1 && input[to - 1] == ']'
  }

  lemma ParsedDotText(input: string, pos: nat)
    requires 0 < pos <= |input| && input[pos - 1] == '.' && ParseDot(input, pos).Ok?
    ensures IsSegmentText(input, pos - 1, ParseDot(input, pos).value.1)
  {
    FieldChars(input, pos);
  }

  lemma ParsedIndexingText(input: string, pos: nat)
    requires 0 < pos <= |input| && input[pos - 1] == '[' && ParseIndexing(input, pos).Ok?
    ensures IsSegmentText(input, pos - 1, ParseIndexing(input, pos).value.1)
  {
    hide ParseBracket, Trim;
    if input[pos] != '*' {
      var end := ContentEnd(input, pos, 1);
      var content := input[pos..end];
      ParsedBracketColon(pos, content);
      hide ContentEnd;
      assert forall k :: pos <= k < end ==> input[k] == content[k - pos];
    }
  }

  lemma ParsedSegmentText(input: string, pos: nat)
    requires 0 < pos < |input| && ParseSegment(input, pos).Ok?
    ensures IsSegmentText(input, pos, ParseSegment(input, pos).value.1)
  {
    hide ParseDot, ParseIndexing, IsSegmentText;
    if input[pos] == '.' {
      ParsedDotText(input, pos + 1);
    } else {
      ParsedIndexingText(input, pos + 1);
    }
  }

  lemma {:induction false} ParsedColonsApart(input: string, pos: nat)
    requires 0 < pos <= |input| && ParseFrom(input, pos).Ok?
    ensures ColonsApart(input, pos, |input|)
    decreases |input| - pos
  {
    hide ParseSegment;
    if pos < |input| {
      var next := ParseSegment(input, pos).value.1;
      ParsedSegmentText(input, pos);
      ParsedColonsApart(input, next);
      forall i, j | pos <= i < j < |input| && input[i] == ':' && input[j] == ':'
        ensures exists k :: i < k < j && input[k] == ']'
      {
        if i < next {
          assert input[next - 1] == ']' && i < next - 1 < j;
        }
      }
    }
  }

  // Calls, filters, recursive descent and slice steps are always rejected.
  lemma ForbiddenIsRejected(input: string)
    requires Parse(input).Ok?
    ensures IsPlain(input, 0, |input|) && ColonsApart(input, 0, |input|)
  {
    hide ParseFrom;
    ParsedIsPlain(input, 1);
    ParsedColonsApart(input, 1);
  }
}
