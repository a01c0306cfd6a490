/** The text form of schedules: writing the six fields, and parsing them. */
module ScheduleText {
  import opened Options
  import opened Schedule
  import opened Sorting
  import opened Texts
  import Numerals

  const EVERY := Spec([], [], [], [], [], [])

  // ---------- Lists of values ----------

  /** The values in order of first occurrence, leaving out those already seen. */
  function Unique(list: seq<int>, seen: set<int>): seq<int> {
    if list == [] then []
    else if list[0] in seen then Unique(list[1..], seen)
    else [list[0]] + Unique(list[1..], seen + {list[0]})
  }

  lemma IncreasingCons(x: int, rest: seq<int>)
    requires Increasing(rest) && forall y | y in rest :: x < y
    ensures Increasing([x] + rest)
  {
    var list := [x] + rest;
    assert forall j | 0 < j < |list| :: list[j] == rest[j - 1] && rest[j - 1] in rest;
  }

  lemma {:induction false} UniqueIncreasing(list: seq<int>, seen: set<int>)
    requires Ordered(list)
    ensures Increasing(Unique(list, seen))
    ensures forall x :: x in Unique(list, seen) <==> x in list && x !in seen
  {
    if list != [] {
      UniqueIncreasing(list[1..], seen);
      UniqueIncreasing(list[1..], seen + {list[0]});
      IncreasingCons(list[0], Unique(list[1..], seen + {list[0]}));
    }
  }

  lemma HasMember(list: seq<int>)
    requires list != []
    ensures exists x :: x in list
  {
    var x := list[0];
    assert x in list;
  }

  /** Sorted lists of the same values are equal. */
  lemma {:induction false} IncreasingUnique(a: seq<int>, b: seq<int>)
    requires Increasing(a) && Increasing(b) && forall x :: x in a <==> x in b
    ensures a == b
  {
    if a == [] {
      if b != [] {
        HasMember(b);
      }
    } else {
      assert a[0] in a && b != [];
      assert b[0] in b;
      FirstIsLeast(a);
      FirstIsLeast(b);
      assert forall x | x in a[1..] :: a[0] < x;
      assert forall x | x in b[1..] :: b[0] < x;
      forall x ensures x in a[1..] <==> x in b[1..] {
        assert x in a <==> x == a[0] || x in a[1..];
        assert x in b <==> x == b[0] || x in b[1..];
      }
      IncreasingUnique(a[1..], b[1..]);
    }
  }

  /** A sorted list between bounds has at most as many values as lie between them, and all of them if as many. */
  lemma {:induction false} IncreasingBounded(list: seq<int>, lo: int, hi: int)
    requires Increasing(list) && (forall v | v in list :: lo <= v <= hi) && lo <= hi + 1
    ensures |list| <= hi - lo + 1
    ensures |list| == hi - lo + 1 ==> forall v | lo <= v <= hi :: v in list
  {
    if list != [] {
      var n := |list| - 1;
      assert list[n] in list;
      forall v | v in list[..n] ensures lo <= v <= list[n] - 1 {
        var i :| 0 <= i < n && list[..n][i] == v;
        assert list[i] < list[n] && list[i] in list;
      }
      IncreasingBounded(list[..n], lo, list[n] - 1);
      if |list| == hi - lo + 1 {
        assert list[n] == hi;
        forall v | lo <= v <= hi ensures v in list {
          assert v < hi ==> v in list[..n];
        }
      }
    }
  }

  // ---------- One field ----------

  /** The values written for a field, before sorting; none when one of them cannot be read. */
  function ReadAll(parts: seq<string>, read: string -> Option<int>): (r: Option<seq<int>>)
    ensures r.Some? ==> |r.value| == |parts| && forall i | 0 <= i < |parts| :: read(parts[i]) == Some(r.value[i])
  {
    if parts == [] then Some([])
    else
      match read(parts[0])
      case None => None
      case Some(v) =>
        match ReadAll(parts[1..], read)
        case None => None
        case Some(vs) => Some([v] + vs)
  }

  function ParsePart(part: string, suffix: string, read: string -> Option<int>): Option<seq<int>> {
    var body := TrimSuffix(part, suffix);
    if body == "*" then Some([])
    else
      match ReadAll(Split(body, ','), read)
      case None => None
      case Some(nums) => if |nums| == 1 then Some(nums) else Some(Unique(Sort(nums), {}))
  }

  /** A list of all values of a field is stored as the empty list. */
  function Normalize(list: seq<int>, full: nat): seq<int> {
    if |list| == full then [] else list
  }

  function NamesOf(list: seq<int>, name: int -> string): seq<string> {
    if list == [] then [] else [name(list[0])] + NamesOf(list[1..], name)
  }

  function FieldText(list: seq<int>, name: int -> string): string {
    if list == [] then "*" else Join(NamesOf(list, name), ',')
  }

  /** `v` is one of the values written. */
  ghost predicate IsWritten(parts: seq<string>, read: string -> Option<int>, v: int) {
    exists i :: 0 <= i < |parts| && read(parts[i]) == Some(v)
  }

  ghost predicate ReadsWithin(read: string -> Option<int>, lo: int, hi: int) {
    forall t :: read(t).Some? ==> lo <= read(t).value <= hi
  }

  /** `read` undoes `name` for the values of a field, whose names are free of separators. */
  ghost predicate Names(name: int -> string, read: string -> Option<int>, lo: int, hi: int) {
    forall v | lo <= v <= hi ::
      read(name(v)) == Some(v) && name(v) != "" && ',' !in name(v) && '*' !in name(v) && ' ' !in name(v)
  }

  /** A parsed and normalized field is in normal form, and admits exactly the values that were written. */
  lemma ParsedField(part: string, suffix: string, read: string -> Option<int>, lo: int, hi: int)
    requires ReadsWithin(read, lo, hi) && lo < hi && ParsePart(part, suffix, read).Some?
    ensures
      var list := Normalize(ParsePart(part, suffix, read).value, hi - lo + 1);
      var body := TrimSuffix(part, suffix);
      && IsField(list, lo, hi)
      && (body == "*" ==> list == [])
      && (body != "*" ==> forall v | lo <= v <= hi :: Admits(list, v) <==> IsWritten(Split(body, ','), read, v))
  {
    var body := TrimSuffix(part, suffix);
    if body != "*" {
      var parts := Split(body, ',');
      var nums := ReadAll(parts, read).value;
      SortOrdered(nums);
      UniqueIncreasing(Sort(nums), {});
      var list := ParsePart(part, suffix, read).value;
      assert forall v :: v in list <==> v in nums;
      forall v | v in nums ensures lo <= v <= hi {
        var i :| 0 <= i < |nums| && nums[i] == v;
        assert read(parts[i]) == Some(v);
      }
      IncreasingBounded(list, lo, hi);
      assert nums[0] in nums;
      forall v ensures v in nums <==> IsWritten(parts, read, v) {
        if v in nums {
          var i :| 0 <= i < |nums| && nums[i] == v;
          assert read(parts[i]) == Some(v);
        }
      }
    }
  }

  lemma {:induction false} ReadsAll(parts: seq<string>, read: string -> Option<int>)
    ensures ReadAll(parts, read).Some? <==> forall i | 0 <= i < |parts| :: read(parts[i]).Some?
  {
    if parts != [] {
      ReadsAll(parts[1..], read);
      if read(parts[0]).Some? && ReadAll(parts[1..], read).Some? {
        assert forall i | 0 <= i < |parts| :: i == 0 || parts[i] == parts[1..][i - 1];
      }
    }
  }

  /** A part is accepted exactly when it is an asterisk or all of its values can be read. */
  lemma AcceptedPart(part: string, suffix: string, read: string -> Option<int>)
    ensures
      var body := TrimSuffix(part, suffix);
      ParsePart(part, suffix, read).Some? <==> body == "*" || forall v | v in Split(body, ',') :: read(v).Some?
  {
    ReadsAll(Split(TrimSuffix(part, suffix), ','), read);
  }

  lemma {:induction false} ReadAllNames(list: seq<int>, name: int -> string, read: string -> Option<int>)
    requires forall i | 0 <= i < |list| :: read(name(list[i])) == Some(list[i])
    ensures ReadAll(NamesOf(list, name), read) == Some(list)
  {
    if list != [] {
      forall i | 0 <= i < |list[1..]| ensures read(name(list[1..][i])) == Some(list[1..][i]) {
        assert list[1..][i] == list[i + 1];
      }
      ReadAllNames(list[1..], name, read);
      var parts := NamesOf(list, name);
      assert parts[0] == name(list[0]) && parts[1..] == NamesOf(list[1..], name);
      assert [list[0]] + list[1..] == list;
    }
  }

  lemma {:induction false} NamesOfMembers(list: seq<int>, name: int -> string)
    ensures |NamesOf(list, name)| == |list|
    ensures forall i | 0 <= i < |list| :: NamesOf(list, name)[i] == name(list[i])
  {
    if list != [] {
      NamesOfMembers(list[1..], name);
    }
  }

  /** A field is written as an asterisk or as its names with commas in between. */
  lemma FieldTextIs(list: seq<int>, name: int -> string, v: int)
    ensures FieldText([], name) == "*"
    ensures FieldText(list + [v], name) == if list == [] then name(v) else FieldText(list, name) + "," + name(v)
  {
    NamesOfMembers(list, name);
    NamesOfMembers(list + [v], name);
    assert NamesOf(list + [v], name) == NamesOf(list, name) + [name(v)];
    JoinAppend(NamesOf(list, name), name(v), ',');
  }

  /** Parsing what was written for a normal-form field gives that field back. */
  lemma FieldRoundTrip(
    list: seq<int>, name: int -> string, read: string -> Option<int>, suffix: string, lo: int, hi: int)
    requires IsField(list, lo, hi) && Names(name, read, lo, hi) && lo < hi
    ensures ParsePart(FieldText(list, name) + suffix, suffix, read) == Some(list)
    ensures Normalize(list, hi - lo + 1) == list
    ensures ' ' !in FieldText(list, name)
  {
    TrimSuffixAppend(FieldText(list, name), suffix);
    if list != [] {
      var names := NamesOf(list, name);
      NamesOfMembers(list, name);
      assert forall i | 0 <= i < |list| :: list[i] in list;
      SplitJoin(names, ',');
      JoinChars(names, ',', '*');
      JoinChars(names, ',', ' ');
      ReadAllNames(list, name, read);
      SortOrdered(list);
      UniqueIncreasing(Sort(list), {});
      IncreasingUnique(Unique(Sort(list), {}), list);
    }
  }
}
