// The JSONPath subset: its syntax, its meaning on JSON values, and the
// executor that works segment by segment.
module JsonPath {
  import opened Types

  datatype Value =
    | Null
    | Bool(b: bool)
    | Number(n: int)
    | Text(s: string)
    | Array(items: seq<Value>)
    | Object(fields: seq<(string, Value)>)

  datatype PathSegment =
    | Field(name: string)
    | Index(index: int)
    | Slice(start: Option<int>, end: Option<int>)
    | Wildcard
    | Union(indices: seq<int>)

  // The child under a name, in an object.
  function Child(fields: seq<(string, Value)>, name: string): seq<Value> {
    if fields == [] then []
    else if fields[0].0 == name then [fields[0].1]
    else Child(fields[1..], name)
  }

  function ChildValues(fields: seq<(string, Value)>): (r: seq<Value>)
    ensures |r| == |fields| && forall k :: 0 <= k < |r| ==> r[k] == fields[k].1
  {
    seq(|fields|, k requires 0 <= k < |fields| => fields[k].1)
  }

  // Negative positions count from the end.
  function IndexValue(v: Value, index: int): seq<Value> {
    match v
    case Array(items) =>
      if index >= 0 then
        if index < |items| then [items[index]] else []
      else
        if -index <= |items| then [items[|items| + index]] else []
    case _ => []
  }

  function SliceValue(v: Value, start: Option<int>, end: Option<int>): seq<Value> {
    match v
    case Array(items) =>
      var len := |items|;
      var s := if start.Some? then start.value else 0;
      var low := if s < 0 then Larger(len + s, 0) else s;
      var e := if end.Some? then end.value else len;
      var high := if e < 0 then Larger(len + e, 0) else Smaller(e, len);
      if low >= high then [] else items[low..high]
    case _ => []
  }

  function Larger(a: int, b: int): int { if a > b then a else b }

  function Smaller(a: int, b: int): int { if a < b then a else b }

  // Section 2.3.4.2.2 of RFC 9535, for step 1.
  function Normalize(i: int, len: nat): int {
    if i >= 0 then i else len + i
  }

  function Bound(i: int, len: nat): (b: nat)
    ensures b <= len
  {
    Smaller(Larger(Normalize(i, len), 0), len)
  }

  // A slice selects exactly the positions from the lower to the upper bound.
  lemma SliceMeetsRfc(items: seq<Value>, start: Option<int>, end: Option<int>)
    ensures var lower := Bound(if start.Some? then start.value else 0, |items|);
      var upper := Bound(if end.Some? then end.value else |items|, |items|);
      SliceValue(Array(items), start, end) == if lower < upper then items[lower..upper] else []
  {
  }

  // An index is the slice of one element that starts there.
  lemma IndexIsSlice(v: Value, index: int)
    ensures IndexValue(v, index) == SliceValue(v, Some(index), if index == -1 then None else Some(index + 1))
  {
    if v.Array? && IndexValue(v, index) != [] {
      var at := if index >= 0 then index else |v.items| + index;
      assert v.items[at..at + 1] == [v.items[at]];
    }
  }

  function UnionValues(v: Value, indices: seq<int>): seq<Value> {
    if indices == [] then [] else IndexValue(v, indices[0]) + UnionValues(v, indices[1..])
  }

  // The children one segment selects.
  function Apply(segment: PathSegment, v: Value): seq<Value> {
    match segment
    case Field(name) => if v.Object? then Child(v.fields, name) else []
    case Index(index) => IndexValue(v, index)
    case Slice(start, end) => SliceValue(v, start, end)
    case Wildcard =>
      (match v
       case Array(items) => items
       case Object(fields) => ChildValues(fields)
       case _ => [])
    case Union(indices) => UnionValues(v, indices)
  }

  // The nodes a path selects from a value: those the rest of the path selects
  // from each child, in order.
  function Select(path: seq<PathSegment>, v: Value): seq<Value>
    decreases |path|, 1, 0
  {
    if path == [] then [v] else SelectAll(path[1..], Apply(path[0], v))
  }

  function SelectAll(path: seq<PathSegment>, vs: seq<Value>): seq<Value>
    decreases |path|, 2, |vs|
  {
    if vs == [] then [] else Select(path, vs[0]) + SelectAll(path, vs[1..])
  }

  function ApplyAll(segment: PathSegment, vs: seq<Value>): seq<Value> {
    if vs == [] then [] else Apply(segment, vs[0]) + ApplyAll(segment, vs[1..])
  }

  lemma {:induction false} SelectAllOf(path: seq<PathSegment>, us: seq<Value>, vs: seq<Value>)
    ensures SelectAll(path, us + vs) == SelectAll(path, us) + SelectAll(path, vs)
  {
    if us == [] {
      assert us + vs == vs;
    } else {
      assert (us + vs)[1..] == us[1..] + vs;
      SelectAllOf(path, us[1..], vs);
    }
  }

  lemma {:induction false} SelectNothing(vs: seq<Value>)
    ensures SelectAll([], vs) == vs
  {
    if vs != [] {
      SelectNothing(vs[1..]);
    }
  }

  // One segment on the whole node list comes to the same as one segment on
  // each node.
  lemma {:induction false} SegmentFirst(path: seq<PathSegment>, vs: seq<Value>)
    requires path != []
    ensures SelectAll(path, vs) == SelectAll(path[1..], ApplyAll(path[0], vs))
  {
    if vs != [] {
      SegmentFirst(path, vs[1..]);
      SelectAllOf(path[1..], Apply(path[0], vs[0]), ApplyAll(path[0], vs[1..]));
    }
  }

  lemma {:induction false} ApplyAllSnoc(segment: PathSegment, vs: seq<Value>, v: Value)
    ensures ApplyAll(segment, vs + [v]) == ApplyAll(segment, vs) + Apply(segment, v)
  {
    if vs == [] {
      assert [v][1..] == [];
      assert [] + [v] == [v];
    } else {
      assert (vs + [v])[1..] == vs[1..] + [v];
      ApplyAllSnoc(segment, vs[1..], v);
    }
  }

  lemma {:induction false} UnionSnoc(v: Value, indices: seq<int>, index: int)
    ensures UnionValues(v, indices + [index]) == UnionValues(v, indices) + IndexValue(v, index)
  {
    if indices == [] {
      assert [index][1..] == [];
      assert [] + [index] == [index];
    } else {
      assert (indices + [index])[1..] == indices[1..] + [index];
      UnionSnoc(v, indices[1..], index);
    }
  }

  // The result of a query: nothing, the one node, or the list of them.
  function Packed(nodes: seq<Value>): Value {
    if nodes == [] then Null
    else if |nodes| == 1 then nodes[0]
    else Array(nodes)
  }

  method ApplySegment(segment: PathSegment, v: Value) returns (nodes: seq<Value>)
    ensures nodes == Apply(segment, v)
  {
    match segment
    case Field(name) => nodes := if v.Object? then Child(v.fields, name) else [];
    case Index(index) => nodes := IndexValue(v, index);
    case Slice(start, end) => nodes := SliceValue(v, start, end);
    case Wildcard =>
      nodes := match v
        case Array(items) => items
        case Object(fields) => ChildValues(fields)
        case _ => [];
    case Union(indices) =>
      nodes := [];
      assert indices[..0] == [];
      for k := 0 to |indices|
        invariant nodes == UnionValues(v, indices[..k])
      {
        UnionSnoc(v, indices[..k], indices[k]);
        assert indices[..k + 1] == indices[..k] + [indices[k]];
        nodes := nodes + IndexValue(v, indices[k]);
      }
      assert indices[..|indices|] == indices;
  }

  // The executor rewrites the node list segment by segment.
  method Execute(path: seq<PathSegment>, root: Value) returns (result: Value)
    ensures result == Packed(Select(path, root))
    ensures var nodes := Select(path, root);
      && (|nodes| == 0 ==> result == Null)
      && (|nodes| == 1 ==> result == nodes[0])
      && (|nodes| > 1 ==> result == Array(nodes))
  {
    hide Apply;
    var current := [root];
    assert path[0..] == path;
    assert SelectAll(path, current) == Select(path, root) by {
      assert current[1..] == [];
      assert Select(path, root) + [] == Select(path, root);
    }
    for k := 0 to |path|
      invariant SelectAll(path[k..], current) == Select(path, root)
    {
      SegmentFirst(path[k..], current);
      assert path[k..][1..] == path[k + 1..];
      var next := [];
      assert current[..0] == [];
      for j := 0 to |current|
        invariant next == ApplyAll(path[k], current[..j])
      {
        var nodes := ApplySegment(path[k], current[j]);
        ApplyAllSnoc(path[k], current[..j], current[j]);
        assert current[..j + 1] == current[..j] + [current[j]];
        next := next + nodes;
      }
      assert current[..|current|] == current;
      current := next;
    }
    assert path[|path|..] == [];
    SelectNothing(current);
    result := Packed(current);
  }

  // Selecting along a path and then along another is selecting along both.
  lemma {:induction false} SelectComposes(p: seq<PathSegment>, q: seq<PathSegment>, v: Value)
    ensures Select(p + q, v) == SelectAll(q, Select(p, v))
    decreases |p|, 0
  {
    if p == [] {
      assert p + q == q;
      assert [v][1..] == [];
      assert Select(q, v) + [] == Select(q, v);
    } else {
      assert (p + q)[1..] == p[1..] + q;
      SelectAllComposes(p[1..], q, Apply(p[0], v));
    }
  }

  lemma {:induction false} SelectAllComposes(p: seq<PathSegment>, q: seq<PathSegment>, vs: seq<Value>)
    ensures SelectAll(p + q, vs) == SelectAll(q, SelectAll(p, vs))
    decreases |p|, 1, |vs|
  {
    if vs != [] {
      SelectComposes(p, q, vs[0]);
      SelectAllComposes(p, q, vs[1..]);
      SelectAllOf(q, Select(p, vs[0]), SelectAll(p, vs[1..]));
    }
  }

  // The number of children of a value, and the one at a position.
  ghost function Children(v: Value): nat {
    match v
    case Array(items) => |items|
    case Object(fields) => |fields|
    case _ => 0
  }

  ghost function ChildAt(v: Value, p: nat): Value
    requires p < Children(v)
  {
    match v
    case Array(items) => items[p]
    case Object(fields) => fields[p].1
  }

  // Position p of n has this index, from the front or from the back.
  ghost predicate HasIndex(p: nat, n: nat, index: int) {
    index == p || index == p - n
  }

  // Position p of n is not before the index, which may count from the back.
  ghost predicate NotBefore(p: nat, n: nat, index: int) {
    if index < 0 then index <= p - n else index <= p
  }

  // The segment selects the child at position p: in an object the first one of
  // the name, in an array the one at the index or all from start to before end.
  ghost predicate Picks(segment: PathSegment, v: Value, p: nat)
    requires p < Children(v)
  {
    var n := Children(v);
    match segment
    case Field(name) => v.Object? && v.fields[p].0 == name && forall q :: 0 <= q < p ==> v.fields[q].0 != name
    case Index(index) => v.Array? && HasIndex(p, n, index)
    case Slice(start, end) =>
      && v.Array? && (start.Some? ==> NotBefore(p, n, start.value)) && (end.Some? ==> !NotBefore(p, n, end.value))
    case Wildcard => true
    case Union(indices) => v.Array? && exists j :: 0 <= j < |indices| && HasIndex(p, n, indices[j])
  }

  ghost predicate Ascending(at: seq<nat>) {
    forall i, j :: 0 <= i < j < |at| ==> at[i] < at[j]
  }

  // The values are the children at these positions.
  ghost predicate AreAt(v: Value, at: seq<nat>, values: seq<Value>) {
    |at| == |values| && forall j :: 0 <= j < |at| ==> at[j] < Children(v) && values[j] == ChildAt(v, at[j])
  }

  // The positions are those the segment picks.
  ghost predicate AreThePicked(segment: PathSegment, v: Value, at: seq<nat>) {
    forall p: nat :: p < Children(v) ==> (p in at <==> Picks(segment, v, p))
  }

  lemma {:induction false} ChildIsFirst(fields: seq<(string, Value)>, name: string) returns (at: seq<nat>)
    ensures |at| <= 1 && AreAt(Object(fields), at, Child(fields, name))
    ensures AreThePicked(Field(name), Object(fields), at)
  {
    if fields == [] {
      at := [];
    } else if fields[0].0 == name {
      at := [0];
    } else {
      var later := ChildIsFirst(fields[1..], name);
      at := seq(|later|, j requires 0 <= j < |later| => later[j] + 1);
      forall p: nat | p < |fields|
        ensures p in at <==> Picks(Field(name), Object(fields), p)
      {
        if p > 0 {
          assert Picks(Field(name), Object(fields), p) <==> Picks(Field(name), Object(fields[1..]), p - 1) by {
            assert forall q :: 1 <= q < |fields| ==> fields[q] == fields[1..][q - 1];
          }
          assert p in at <==> p - 1 in later by {
            if p - 1 in later {
              var j :| 0 <= j < |later| && later[j] == p - 1;
              assert at[j] == p;
            }
          }
        }
      }
    }
  }

  // A run of positions.
  ghost function From(low: nat, high: nat): seq<nat>
    requires low <= high
  {
    seq(high - low, j requires 0 <= j < high - low => low + j)
  }

  lemma FromHas(low: nat, high: nat)
    requires low <= high
    ensures Ascending(From(low, high)) && forall p: nat :: p in From(low, high) <==> low <= p < high
  {
    forall p: nat | low <= p < high
      ensures p in From(low, high)
    {
      assert From(low, high)[p - low] == p;
    }
  }

  lemma IndexPicks(v: Value, index: int) returns (at: seq<nat>)
    ensures AreAt(v, at, IndexValue(v, index)) && Ascending(at) && AreThePicked(Index(index), v, at)
  {
    var n := Children(v);
    at := if v.Array? && -n <= index < n then [if index >= 0 then index else n + index] else [];
    assert forall p: nat :: p in at ==> p == at[0];
  }

  lemma RunIsAt(items: seq<Value>, low: nat, high: nat)
    requires low <= high <= |items|
    ensures AreAt(Array(items), From(low, high), items[low..high])
  {
  }

  lemma BoundsPick(n: nat, start: Option<int>, end: Option<int>, p: nat)
    requires p < n
    ensures Bound(if start.Some? then start.value else 0, n) <= p < Bound(if end.Some? then end.value else n, n) <==>
      (start.Some? ==> NotBefore(p, n, start.value)) && (end.Some? ==> !NotBefore(p, n, end.value))
  {
  }

  lemma SlicePicks(items: seq<Value>, start: Option<int>, end: Option<int>) returns (at: seq<nat>)
    ensures AreAt(Array(items), at, SliceValue(Array(items), start, end)) && Ascending(at)
    ensures AreThePicked(Slice(start, end), Array(items), at)
  {
    var n := |items|;
    var low := Bound(if start.Some? then start.value else 0, n);
    var high := Bound(if end.Some? then end.value else n, n);
    SliceMeetsRfc(items, start, end);
    hide SliceValue, Bound, NotBefore, From;
    at := if low < high then From(low, high) else [];
    if low < high {
      FromHas(low, high);
      RunIsAt(items, low, high);
    }
    forall p: nat | p < n
      ensures p in at <==> Picks(Slice(start, end), Array(items), p)
    {
      BoundsPick(n, start, end, p);
    }
  }

  lemma WildcardPicks(v: Value) returns (at: seq<nat>)
    ensures AreAt(v, at, Apply(Wildcard, v)) && Ascending(at) && AreThePicked(Wildcard, v, at)
  {
    at := From(0, Children(v));
    FromHas(0, Children(v));
    hide From;
  }

  lemma NothingPicked(segment: PathSegment, v: Value)
    requires segment.Slice? && !v.Array?
    ensures AreAt(v, [], Apply(segment, v)) && Ascending([]) && AreThePicked(segment, v, [])
  {
  }

  // A segment other than a union selects the children it picks, in order.
  lemma SegmentPicks(segment: PathSegment, v: Value) returns (at: seq<nat>)
    requires !segment.Union?
    ensures AreAt(v, at, Apply(segment, v)) && Ascending(at) && AreThePicked(segment, v, at)
  {
    hide AreAt, AreThePicked, Ascending;
    match segment {
      case Index(index) => at := IndexPicks(v, index);
      case Slice(start, end) =>
        if v.Array? {
          at := SlicePicks(v.items, start, end);
        } else {
          at := [];
          NothingPicked(segment, v);
        }
      case Wildcard => at := WildcardPicks(v);
      case Field(name) => at := FieldPicks(v, name);
    }
  }

  lemma FieldPicks(v: Value, name: string) returns (at: seq<nat>)
    ensures AreAt(v, at, Apply(Field(name), v)) && Ascending(at) && AreThePicked(Field(name), v, at)
  {
    hide Child;
    at := [];
    if v.Object? {
      at := ChildIsFirst(v.fields, name);
    }
  }

  lemma SelectOne(segment: PathSegment, v: Value)
    ensures Select([segment], v) == Apply(segment, v)
  {
    assert [segment][1..] == [];
    SelectNothing(Apply(segment, v));
  }

  // Every field of an object is found under its name, if no other has it.
  lemma FieldIsFound(fields: seq<(string, Value)>, k: nat)
    requires k < |fields| && forall j :: 0 <= j < |fields| && j != k ==> fields[j].0 != fields[k].0
    ensures Select([Field(fields[k].0)], Object(fields)) == [fields[k].1]
  {
    var name, v := fields[k].0, Object(fields);
    var at := FieldPicks(v, name);
    assert |at| <= 1 || at[0] < at[1];
    SelectOne(Field(name), v);
    assert Picks(Field(name), v, k) && forall p: nat :: p < |fields| && Picks(Field(name), v, p) ==> p == k;
    hide Apply, Select;
    assert forall j :: 0 <= j < |at| ==> at[j] in at;
    assert forall j :: 0 <= j < |at| ==> at[j] == k;
    assert k in at;
  }

  // Nothing is found under other names, or in what is no object.
  lemma NoFieldIsFound(v: Value, name: string)
    requires v.Object? ==> forall j :: 0 <= j < |v.fields| ==> v.fields[j].0 != name
    ensures Select([Field(name)], v) == []
  {
    var at := FieldPicks(v, name);
    SelectOne(Field(name), v);
    assert forall p: nat :: p < Children(v) ==> !Picks(Field(name), v, p);
    hide Apply, Select;
    assert forall j :: 0 <= j < |at| ==> at[j] in at;
  }

  // A union selects for each of its indices in turn.
  lemma UnionInTurn(v: Value, indices: seq<int>, more: seq<int>, index: int)
    ensures Apply(Union([]), v) == []
    ensures Apply(Union([index]), v) == Apply(Index(index), v)
    ensures Apply(Union(indices + more), v) == Apply(Union(indices), v) + Apply(Union(more), v)
  {
    assert [index][1..] == [];
    UnionOfBoth(v, indices, more);
  }

  lemma {:induction false} UnionOfBoth(v: Value, indices: seq<int>, more: seq<int>)
    ensures UnionValues(v, indices + more) == UnionValues(v, indices) + UnionValues(v, more)
  {
    if indices == [] {
      assert indices + more == more;
    } else {
      assert (indices + more)[1..] == indices[1..] + more;
      UnionOfBoth(v, indices[1..], more);
    }
  }

  lemma {:induction false} UnionHas(v: Value, indices: seq<int>, x: Value)
    ensures x in UnionValues(v, indices) <==>
      exists j :: 0 <= j < |indices| && x in IndexValue(v, indices[j])
  {
    hide IndexValue;
    if indices != [] {
      var rest := indices[1..];
      UnionHas(v, rest, x);
      if j :| 0 <= j < |indices| && x in IndexValue(v, indices[j]) {
        assert j > 0 ==> rest[j - 1] == indices[j];
      }
      if j :| 0 <= j < |rest| && x in IndexValue(v, rest[j]) {
        assert indices[j + 1] == rest[j];
      }
    }
  }

  ghost predicate IsPicked(segment: PathSegment, v: Value, x: Value) {
    exists p: nat :: p < Children(v) && Picks(segment, v, p) && ChildAt(v, p) == x
  }

  lemma ListedAreThePicked(segment: PathSegment, v: Value, at: seq<nat>, values: seq<Value>, x: Value)
    requires AreAt(v, at, values) && AreThePicked(segment, v, at)
    ensures x in values <==> IsPicked(segment, v, x)
  {
    hide Picks;
    if x in values {
      var j :| 0 <= j < |values| && values[j] == x;
      assert at[j] in at;
    }
    if IsPicked(segment, v, x) {
      var p: nat :| p < Children(v) && Picks(segment, v, p) && ChildAt(v, p) == x;
      var j :| 0 <= j < |at| && at[j] == p;
      assert values[j] == x;
    }
  }

  lemma UnionIsPicked(v: Value, indices: seq<int>, x: Value)
    ensures IsPicked(Union(indices), v, x) <==>
      exists j :: 0 <= j < |indices| && IsPicked(Index(indices[j]), v, x)
  {
    if IsPicked(Union(indices), v, x) {
      var p: nat :| p < Children(v) && Picks(Union(indices), v, p) && ChildAt(v, p) == x;
      var j :| 0 <= j < |indices| && HasIndex(p, Children(v), indices[j]);
      assert Picks(Index(indices[j]), v, p);
    }
    if j :| 0 <= j < |indices| && IsPicked(Index(indices[j]), v, x) {
      var p: nat :| p < Children(v) && Picks(Index(indices[j]), v, p) && ChildAt(v, p) == x;
      assert Picks(Union(indices), v, p);
    }
  }

  // Any segment selects just the children it picks.
  lemma AppliedArePicked(segment: PathSegment, v: Value, x: Value)
    ensures x in Apply(segment, v) <==> IsPicked(segment, v, x)
  {
    hide Picks, IndexValue, UnionValues;
    if segment.Union? {
      UnionHas(v, segment.indices, x);
      UnionIsPicked(v, segment.indices, x);
      forall j | 0 <= j < |segment.indices|
        ensures x in IndexValue(v, segment.indices[j]) <==> IsPicked(Index(segment.indices[j]), v, x)
      {
        var at := IndexPicks(v, segment.indices[j]);
        ListedAreThePicked(Index(segment.indices[j]), v, at, IndexValue(v, segment.indices[j]), x);
      }
    } else {
      var at := SegmentPicks(segment, v);
      hide Apply;
      ListedAreThePicked(segment, v, at, Apply(segment, v), x);
    }
  }

  // The path picks its way from v along the positions of loc to w.
  ghost predicate LeadsTo(path: seq<PathSegment>, v: Value, loc: seq<nat>, w: Value)
    decreases |path|
  {
    if path == [] then loc == [] && w == v
    else
      && loc != [] && loc[0] < Children(v) && Picks(path[0], v, loc[0])
      && LeadsTo(path[1..], ChildAt(v, loc[0]), loc[1..], w)
  }

  lemma {:induction false} SelectAllHas(path: seq<PathSegment>, vs: seq<Value>, w: Value)
    ensures w in SelectAll(path, vs) <==> exists x :: x in vs && w in Select(path, x)
    decreases |vs|
  {
    if vs != [] {
      SelectAllHas(path, vs[1..], w);
      assert SelectAll(path, vs) == Select(path, vs[0]) + SelectAll(path, vs[1..]);
      hide Select, SelectAll;
      if w in SelectAll(path, vs[1..]) {
        var x :| x in vs[1..] && w in Select(path, x);
        assert x in vs;
      }
      if x :| x in vs && w in Select(path, x) {
        assert x == vs[0] || x in vs[1..];
      }
    }
  }

  ghost predicate Reaches(path: seq<PathSegment>, v: Value, w: Value) {
    exists loc :: LeadsTo(path, v, loc, w)
  }

  lemma ReachesFrom(path: seq<PathSegment>, v: Value, w: Value)
    requires path != []
    ensures Reaches(path, v, w) <==> exists x :: IsPicked(path[0], v, x) && Reaches(path[1..], x, w)
  {
    hide Picks;
    if loc :| LeadsTo(path, v, loc, w) {
      assert LeadsTo(path[1..], ChildAt(v, loc[0]), loc[1..], w);
      assert IsPicked(path[0], v, ChildAt(v, loc[0])) && Reaches(path[1..], ChildAt(v, loc[0]), w);
    }
    if x :| IsPicked(path[0], v, x) && Reaches(path[1..], x, w) {
      var p: nat :| p < Children(v) && Picks(path[0], v, p) && ChildAt(v, p) == x;
      var loc :| LeadsTo(path[1..], x, loc, w);
      assert ([p] + loc)[1..] == loc;
      assert LeadsTo(path, v, [p] + loc, w);
    }
  }

  // The nodes a path selects are just the values it leads to.
  lemma {:induction false} SelectReaches(path: seq<PathSegment>, v: Value, w: Value)
    ensures w in Select(path, v) <==> Reaches(path, v, w)
    decreases |path|
  {
    hide Apply, IsPicked;
    if path == [] {
      assert LeadsTo(path, v, [], v);
    } else {
      hide Reaches;
      ReachesFrom(path, v, w);
      SelectAllHas(path[1..], Apply(path[0], v), w);
      forall x
        ensures x in Apply(path[0], v) <==> IsPicked(path[0], v, x)
        ensures w in Select(path[1..], x) <==> Reaches(path[1..], x, w)
      {
        AppliedArePicked(path[0], v, x);
        SelectReaches(path[1..], x, w);
      }
    }
  }

  // Earlier in document order.
  ghost predicate LocLess(a: seq<nat>, b: seq<nat>) {
    a != [] && b != [] && (a[0] < b[0] || (a[0] == b[0] && LocLess(a[1..], b[1..])))
  }

  ghost predicate NoUnions(path: seq<PathSegment>) {
    forall k :: 0 <= k < |path| ==> !path[k].Union?
  }

  // The nodes at these locations, in document order.
  ghost predicate AreLocated(path: seq<PathSegment>, v: Value, locs: seq<seq<nat>>, nodes: seq<Value>) {
    && |locs| == |nodes| && (forall k :: 0 <= k < |locs| ==> LeadsTo(path, v, locs[k], nodes[k]))
    && (forall j, k :: 0 <= j < k < |locs| ==> LocLess(locs[j], locs[k]))
  }

  // All locations that begin with one of the positions.
  ghost predicate CoversAll(path: seq<PathSegment>, v: Value, locs: seq<seq<nat>>, at: seq<nat>) {
    forall loc, w :: LeadsTo(path, v, loc, w) && loc != [] && loc[0] in at ==> loc in locs
  }

  // Without unions the nodes are all those the path leads to, each location
  // once and in document order.
  lemma {:induction false} SelectInOrder(path: seq<PathSegment>, v: Value) returns (locs: seq<seq<nat>>)
    requires NoUnions(path)
    ensures AreLocated(path, v, locs, Select(path, v))
    ensures forall loc, w :: LeadsTo(path, v, loc, w) ==> loc in locs
    decreases |path|, 1, 0
  {
    hide Picks, Apply;
    if path == [] {
      locs := [[]];
    } else {
      var at := SegmentPicks(path[0], v);
      locs := SelectFrom(path, v, at, Apply(path[0], v));
      forall loc, w | LeadsTo(path, v, loc, w)
        ensures loc in locs
      {
        assert loc[0] in at;
      }
    }
  }

  lemma {:induction false} SelectFrom(path: seq<PathSegment>, v: Value, at: seq<nat>, values: seq<Value>)
    returns (locs: seq<seq<nat>>)
    requires path != [] && NoUnions(path) && AreAt(v, at, values) && Ascending(at)
    requires forall p :: p in at ==> p < Children(v) && Picks(path[0], v, p)
    ensures AreLocated(path, v, locs, SelectAll(path[1..], values)) && CoversAll(path, v, locs, at)
    ensures forall loc :: loc in locs ==> loc != [] && loc[0] in at
    decreases |path|, 0, |at|
  {
    hide Picks;
    if at == [] {
      locs := [];
    } else {
      var here := SelectInOrder(path[1..], values[0]);
      assert forall p :: p in at <==> p == at[0] || p in at[1..];
      var later := SelectFrom(path, v, at[1..], values[1..]);
      var first := Prefixed(at[0], here);
      PrefixedIs(path, v, at[0], here, Select(path[1..], values[0]));
      locs := first + later;
      JoinedInOrder(path, v, at, first, Select(path[1..], values[0]), later, SelectAll(path[1..], values[1..]));
    }
  }

  ghost function Prefixed(p: nat, locs: seq<seq<nat>>): (r: seq<seq<nat>>)
    ensures |r| == |locs| && forall k :: 0 <= k < |r| ==> r[k] == [p] + locs[k]
  {
    seq(|locs|, k requires 0 <= k < |locs| => [p] + locs[k])
  }

  lemma PrefixedIs(path: seq<PathSegment>, v: Value, p: nat, locs: seq<seq<nat>>, nodes: seq<Value>)
    requires path != [] && p < Children(v) && Picks(path[0], v, p)
    requires AreLocated(path[1..], ChildAt(v, p), locs, nodes)
    requires forall loc, w :: LeadsTo(path[1..], ChildAt(v, p), loc, w) ==> loc in locs
    ensures AreLocated(path, v, Prefixed(p, locs), nodes) && CoversAll(path, v, Prefixed(p, locs), [p])
  {
    hide Picks;
    var first := Prefixed(p, locs);
    forall k | 0 <= k < |first|
      ensures first[k][0] == p && first[k][1..] == locs[k]
    {
    }
    forall loc, w | LeadsTo(path, v, loc, w) && loc[0] == p
      ensures loc in first
    {
      assert LeadsTo(path[1..], ChildAt(v, p), loc[1..], w);
      var k :| 0 <= k < |locs| && locs[k] == loc[1..];
      assert first[k] == loc;
    }
  }

  lemma JoinedInOrder(path: seq<PathSegment>, v: Value, at: seq<nat>, first: seq<seq<nat>>, nodes: seq<Value>,
                      later: seq<seq<nat>>, more: seq<Value>)
    requires at != [] && Ascending(at)
    requires AreLocated(path, v, first, nodes) && CoversAll(path, v, first, [at[0]])
    requires AreLocated(path, v, later, more) && CoversAll(path, v, later, at[1..])
    requires forall loc :: loc in first ==> loc != [] && loc[0] == at[0]
    requires forall loc :: loc in later ==> loc != [] && loc[0] in at[1..]
    ensures AreLocated(path, v, first + later, nodes + more) && CoversAll(path, v, first + later, at)
  {
    hide LeadsTo, Picks, Children;
    LocatedJoin(path, v, first, nodes, later, more);
    CoversJoin(path, v, at, first, later);
  }

  lemma LocatedJoin(path: seq<PathSegment>, v: Value, first: seq<seq<nat>>, nodes: seq<Value>, later: seq<seq<nat>>,
                    more: seq<Value>)
    requires AreLocated(path, v, first, nodes) && AreLocated(path, v, later, more)
    requires forall loc, other :: loc in first && other in later ==> loc != [] && other != [] && loc[0] < other[0]
    ensures AreLocated(path, v, first + later, nodes + more)
  {
    hide LeadsTo;
    forall j, k | 0 <= j < |first| && 0 <= k < |later|
      ensures LocLess(first[j], later[k])
    {
      assert first[j] in first && later[k] in later;
    }
    hide LocLess;
  }

  lemma CoversJoin(path: seq<PathSegment>, v: Value, at: seq<nat>, first: seq<seq<nat>>, later: seq<seq<nat>>)
    requires at != [] && CoversAll(path, v, first, [at[0]]) && CoversAll(path, v, later, at[1..])
    ensures CoversAll(path, v, first + later, at)
  {
    hide LeadsTo;
    assert forall p :: p in at <==> p in [at[0]] || p in at[1..];
  }
}
