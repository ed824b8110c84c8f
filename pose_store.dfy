/** The keyframe store: `load_camera_poses` after JSON decoding, and the prefix
    filter of `main`. The matrix inversion that turns a camera-to-world transform
    into a world-to-camera one is the parameter `invert`. */
module PoseStore {
  import opened NameOrder

  /** One decoded element of the input array: its `img_name` and the camera-to-world
      transform assembled from its `rotation` and `position`. */
  datatype Keyframe<P> = Keyframe(name: string, camToWorld: P)

  /** One item of the returned dictionary: a name and its world-to-camera pose. */
  datatype Entry<P> = Entry(name: string, pose: P)

  /** The dictionary `name_to_tcw` after the loop has seen `items`: each item stores
      the inverse of its transform under its name, overwriting an earlier one. */
  function NameToTcw<P>(items: seq<Keyframe<P>>, invert: P -> P): map<string, P>
    decreases |items|
  {
    if items == [] then map[]
    else
      var last := items[|items| - 1];
      NameToTcw(items[..|items| - 1], invert)[last.name := invert(last.camToWorld)]
  }

  /** The dictionary has exactly one key per distinct input name. */
  lemma {:induction false} NameToTcwKeys<P>(items: seq<Keyframe<P>>, invert: P -> P)
    ensures NameToTcw(items, invert).Keys == set i | 0 <= i < |items| :: items[i].name
    decreases |items|
  {
    if items != [] {
      var init := items[..|items| - 1];
      NameToTcwKeys(init, invert);
      assert forall i :: 0 <= i < |init| ==> init[i] == items[i];
      assert (set i | 0 <= i < |items| :: items[i].name)
          == (set i | 0 <= i < |init| :: init[i].name) + {items[|items| - 1].name};
    }
  }

  /** For a repeated name the last occurrence wins. */
  lemma {:induction false} NameToTcwLastWins<P>(items: seq<Keyframe<P>>, invert: P -> P, i: nat)
    requires i < |items|
    requires forall j :: i < j < |items| ==> items[j].name != items[i].name
    ensures items[i].name in NameToTcw(items, invert)
    ensures NameToTcw(items, invert)[items[i].name] == invert(items[i].camToWorld)
    decreases |items|
  {
    if i < |items| - 1 {
      NameToTcwLastWins(items[..|items| - 1], invert, i);
    }
  }

  /** Every name is smaller than the next ones: the order `sorted` produces when the
      names are distinct. */
  predicate Ascending<P>(s: seq<Entry<P>>) {
    forall i, j :: 0 <= i < j < |s| ==> Less(s[i].name, s[j].name)
  }

  predicate DistinctNames<P>(s: seq<Entry<P>>) {
    forall i, j :: 0 <= i < j < |s| ==> s[i].name != s[j].name
  }

  /** Inserts `e` before the first entry whose name is larger. */
  function Insert<P>(e: Entry<P>, s: seq<Entry<P>>): (r: seq<Entry<P>>)
    ensures multiset(r) == multiset(s) + multiset{e}
  {
    if s == [] then [e]
    else if Less(e.name, s[0].name) then [e] + s
    else
      assert s == [s[0]] + s[1..];
      [s[0]] + Insert(e, s[1..])
  }

  /** `sorted(items, key=lambda item: item[0])`, as an insertion sort. */
  function SortByName<P>(s: seq<Entry<P>>): (r: seq<Entry<P>>)
    ensures multiset(r) == multiset(s)
  {
    if s == [] then []
    else
      assert s == [s[0]] + s[1..];
      Insert(s[0], SortByName(s[1..]))
  }

  lemma {:induction false} InsertAscending<P>(e: Entry<P>, s: seq<Entry<P>>)
    requires Ascending(s)
    requires forall x :: x in s ==> x.name != e.name
    ensures Ascending(Insert(e, s))
  {
    if s == [] {
    } else if Less(e.name, s[0].name) {
      var r := [e] + s;
      forall i, j | 0 <= i < j < |r| ensures Less(r[i].name, r[j].name) {
        if i == 0 && j > 1 {
          LessTransitive(e.name, s[0].name, s[j - 1].name);
        }
      }
    } else {
      LessTotal(e.name, s[0].name);
      InsertAscending(e, s[1..]);
      var tail := Insert(e, s[1..]);
      var r := [s[0]] + tail;
      forall i, j | 0 <= i < j < |r| ensures Less(r[i].name, r[j].name) {
        if i == 0 {
          assert r[j] in multiset(tail);
          assert r[j] == e || r[j] in s[1..];
        }
      }
    }
  }

  /** Sorting distinct names gives them in strictly ascending order. */
  lemma {:induction false} SortByNameAscending<P>(s: seq<Entry<P>>)
    requires DistinctNames(s)
    ensures Ascending(SortByName(s))
  {
    if s != [] {
      SortByNameAscending(s[1..]);
      var rest := SortByName(s[1..]);
      forall x | x in rest ensures x.name != s[0].name {
        assert x in multiset(s[1..]);
      }
      InsertAscending(s[0], rest);
    }
  }

  /** Two ascending lists holding the same entries are the same list: the sorted
      order of the store is fully determined by its contents. */
  lemma {:induction false} AscendingUnique<P>(a: seq<Entry<P>>, b: seq<Entry<P>>)
    requires Ascending(a) && Ascending(b)
    requires forall e :: e in a <==> e in b
    ensures a == b
  {
    if a != [] || b != [] {
      assert a != [] ==> a[0] in b;
      assert b != [] ==> b[0] in a;
      assert a != [] && b != [];
      AscendingHeads(a, b);
      AscendingTails(a, b);
      AscendingUnique(a[1..], b[1..]);
      assert a == [a[0]] + a[1..] && b == [b[0]] + b[1..];
    }
  }

  /** Two non-empty ascending lists with the same entries start with the same entry. */
  lemma AscendingHeads<P>(a: seq<Entry<P>>, b: seq<Entry<P>>)
    requires Ascending(a) && Ascending(b) && a != [] && b != []
    requires a[0] in b && b[0] in a
    ensures a[0] == b[0]
  {
    var k :| 0 <= k < |b| && b[k] == a[0];
    var l :| 0 <= l < |a| && a[l] == b[0];
    LessAsymmetric(a[0].name, b[0].name);
  }

  /** Removing the common head of two ascending lists with the same entries leaves
      tails with the same entries. */
  lemma AscendingTails<P>(a: seq<Entry<P>>, b: seq<Entry<P>>)
    requires Ascending(a) && Ascending(b) && a != [] && b != [] && a[0] == b[0]
    requires forall e :: e in a <==> e in b
    ensures forall e :: e in a[1..] <==> e in b[1..]
  {
    forall e | e in a[1..] ensures e in b[1..] {
      TailMember(a, b, e);
    }
    forall e | e in b[1..] ensures e in a[1..] {
      TailMember(b, a, e);
    }
  }

  lemma TailMember<P>(a: seq<Entry<P>>, b: seq<Entry<P>>, e: Entry<P>)
    requires Ascending(a) && a != [] && b != [] && a[0] == b[0]
    requires e in a[1..] && e in b
    ensures e in b[1..]
  {
    var i :| 1 <= i < |a| && a[i] == e;
    LessIrreflexive(a[0].name);
    var j :| 0 <= j < |b| && b[j] == e;
    assert b[1..][j - 1] == e;
  }

  /** `load_camera_poses` after the file has been decoded into `items`. The loop
      fills the dictionary, remembering the order in which names were first
      inserted, as a Python dictionary does; the items are then sorted by name. */
  method LoadCameraPoses<P>(items: seq<Keyframe<P>>, invert: P -> P) returns (r: seq<Entry<P>>)
    ensures Ascending(r)
    ensures forall e :: e in r ==> e.name in NameToTcw(items, invert) && e.pose == NameToTcw(items, invert)[e.name]
    ensures forall name :: name in NameToTcw(items, invert) ==> Entry(name, NameToTcw(items, invert)[name]) in r
  {
    var nameToTcw: map<string, P> := map[];
    var order: seq<string> := [];
    var i := 0;
    while i < |items|
      invariant 0 <= i <= |items|
      invariant nameToTcw == NameToTcw(items[..i], invert)
      invariant forall a, b :: 0 <= a < b < |order| ==> order[a] != order[b]
      invariant forall name :: name in order <==> name in nameToTcw
    {
      var item := items[i];
      var tcw := invert(item.camToWorld);
      if item.name !in nameToTcw {
        order := order + [item.name];
      }
      nameToTcw := nameToTcw[item.name := tcw];
      assert items[..i + 1][..i] == items[..i];
      i := i + 1;
    }
    assert items[..i] == items;
    r := SortByName(DictItems(order, nameToTcw));
    SortedDictItems(order, nameToTcw);
  }

  /** `name_to_tcw.items()` for a dictionary whose keys, in insertion order, are `order`. */
  function DictItems<P>(order: seq<string>, dict: map<string, P>): seq<Entry<P>>
    requires forall name :: name in order ==> name in dict
  {
    seq(|order|, k requires 0 <= k < |order| => Entry(order[k], dict[order[k]]))
  }

  /** Sorting the items of a dictionary lists each of its (name, pose) pairs once, in
      strictly ascending name order. */
  lemma SortedDictItems<P>(order: seq<string>, dict: map<string, P>)
    requires forall a, b :: 0 <= a < b < |order| ==> order[a] != order[b]
    requires forall name :: name in order <==> name in dict
    ensures Ascending(SortByName(DictItems(order, dict)))
    ensures forall e :: e in SortByName(DictItems(order, dict)) ==> e.name in dict && e.pose == dict[e.name]
    ensures forall name :: name in dict ==> Entry(name, dict[name]) in SortByName(DictItems(order, dict))
  {
    var items := DictItems(order, dict);
    var r := SortByName(items);
    assert DistinctNames(items);
    SortByNameAscending(items);
    forall e | e in r ensures e.name in dict && e.pose == dict[e.name] {
      assert e in multiset(items);
    }
    forall name | name in dict ensures Entry(name, dict[name]) in r {
      var k :| 0 <= k < |order| && order[k] == name;
      assert items[k] in multiset(r);
    }
  }

  /** The entries whose name starts with `prefix`, in their original order. */
  function KeepPrefixed<P>(s: seq<Entry<P>>, prefix: string): (r: seq<Entry<P>>)
    ensures forall k :: 0 <= k < |r| ==> r[k] in s && StartsWith(r[k].name, prefix)
    ensures forall k :: 0 <= k < |s| && StartsWith(s[k].name, prefix) ==> s[k] in r
  {
    if s == [] then []
    else
      assert s == [s[0]] + s[1..];
      (if StartsWith(s[0].name, prefix) then [s[0]] else []) + KeepPrefixed(s[1..], prefix)
  }

  /** The comprehension `[pose for name, pose in name_to_tcw.items() if
      name.startswith(prefix)]`. */
  function FilterByPrefix<P>(s: seq<Entry<P>>, prefix: string): (r: seq<P>)
    ensures |r| == |KeepPrefixed(s, prefix)|
    ensures forall k :: 0 <= k < |r| ==> r[k] == KeepPrefixed(s, prefix)[k].pose
  {
    var kept := KeepPrefixed(s, prefix);
    seq(|kept|, k requires 0 <= k < |kept| => kept[k].pose)
  }

  /** Filtering keeps relative order: filtering a concatenation concatenates the
      filtered parts. */
  lemma {:induction false} KeepPrefixedAppend<P>(a: seq<Entry<P>>, b: seq<Entry<P>>, prefix: string)
    ensures KeepPrefixed(a + b, prefix) == KeepPrefixed(a, prefix) + KeepPrefixed(b, prefix)
  {
    if a == [] {
      assert a + b == b;
    } else {
      assert (a + b)[0] == a[0];
      assert (a + b)[1..] == a[1..] + b;
      KeepPrefixedAppend(a[1..], b, prefix);
    }
  }

  /** The filtered entries keep the ascending name order of the store. */
  lemma {:induction false} KeepPrefixedAscending<P>(s: seq<Entry<P>>, prefix: string)
    requires Ascending(s)
    ensures Ascending(KeepPrefixed(s, prefix))
  {
    if s != [] {
      KeepPrefixedAscending(s[1..], prefix);
      var tail := KeepPrefixed(s[1..], prefix);
      if StartsWith(s[0].name, prefix) {
        var r := [s[0]] + tail;
        forall i, j | 0 <= i < j < |r| ensures Less(r[i].name, r[j].name) {
          if i == 0 {
            assert r[j] in s[1..];
          }
        }
      }
    }
  }

  /** The empty prefix, the default, keeps every entry. */
  lemma {:induction false} FilterByEmptyPrefix<P>(s: seq<Entry<P>>)
    ensures KeepPrefixed(s, []) == s
    ensures |FilterByPrefix(s, [])| == |s|
    ensures forall k :: 0 <= k < |s| ==> FilterByPrefix(s, [])[k] == s[k].pose
  {
    if s != [] {
      FilterByEmptyPrefix(s[1..]);
      assert s == [s[0]] + s[1..];
    }
  }
}
