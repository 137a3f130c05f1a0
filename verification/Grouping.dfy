/** Grouping a sequence by a key: adjacent runs of equal keys, and when they are the groups of SQL. */
module Grouping {
  import opened Sequences

  datatype Keyed<T> = Keyed(key: int, item: T)

  datatype Group<T> = Group(key: int, items: seq<T>)

  /** Neighbours with the same key share a group. */
  function GroupBy<T>(s: seq<Keyed<T>>): seq<Group<T>> {
    if s == [] then []
    else
      var g := GroupBy(Init(s));
      var x := Last(s);
      if g != [] && Last(g).key == x.key then Init(g) + [Group(x.key, Last(g).items + [x.item])]
      else g + [Group(x.key, [x.item])]
  }

  function Flatten<T>(gs: seq<Group<T>>): seq<T> {
    if gs == [] then [] else Flatten(Init(gs)) + Last(gs).items
  }

  function Items<T>(s: seq<Keyed<T>>): (items: seq<T>)
    ensures |items| == |s| && forall i :: 0 <= i < |s| ==> items[i] == s[i].item
  {
    seq(|s|, i requires 0 <= i < |s| => s[i].item)
  }

  /** The rows of one key, in order. */
  function Select<T>(s: seq<Keyed<T>>, k: int): seq<T> {
    if s == [] then [] else Select(Init(s), k) + if Last(s).key == k then [Last(s).item] else []
  }

  ghost predicate Ascending<T>(s: seq<Keyed<T>>) {
    forall i, j :: 0 <= i < j < |s| ==> s[i].key <= s[j].key
  }

  ghost predicate StrictlyAscending<T>(gs: seq<Group<T>>) {
    forall i, j :: 0 <= i < j < |gs| ==> gs[i].key < gs[j].key
  }

  lemma FlattenSnoc<T>(gs: seq<Group<T>>, g: Group<T>)
    ensures Flatten(gs + [g]) == Flatten(gs) + g.items
  {
  }

  /** Grouping neither loses, repeats nor reorders items. */
  lemma {:induction false} GroupsPartition<T>(s: seq<Keyed<T>>)
    ensures Flatten(GroupBy(s)) == Items(s)
    ensures s != [] ==> GroupBy(s) != [] && Last(GroupBy(s)).key == Last(s).key
    ensures forall g :: g in GroupBy(s) ==> g.items != []
  {
    if s != [] {
      GroupsPartition(Init(s));
      var g := GroupBy(Init(s));
      var x := Last(s);
      assert Items(s) == Items(Init(s)) + [x.item];
      if g != [] && Last(g).key == x.key {
        FlattenSnoc(Init(g), Group(x.key, Last(g).items + [x.item]));
        assert Flatten(g) == Flatten(Init(g)) + Last(g).items;
      } else {
        FlattenSnoc(g, Group(x.key, [x.item]));
      }
    }
  }

  ghost predicate HasKey<T>(gs: seq<Group<T>>, k: int) {
    exists j :: 0 <= j < |gs| && gs[j].key == k
  }

  ghost predicate Selections<T>(s: seq<Keyed<T>>, gs: seq<Group<T>>) {
    forall j :: 0 <= j < |gs| ==> gs[j].items == Select(s, gs[j].key)
  }

  /** Over ascending keys the groups are those of GROUP BY: one a key, holding every row of that key. */
  lemma {:induction false} GroupsAreSelections<T>(s: seq<Keyed<T>>)
    requires Ascending(s)
    ensures StrictlyAscending(GroupBy(s)) && Selections(s, GroupBy(s))
    ensures forall i :: 0 <= i < |s| ==> HasKey(GroupBy(s), s[i].key)
  {
    if s != [] {
      GroupsAreSelections(Init(s));
      GroupsPartition(Init(s));
      LastGroupAscends(s);
      LastGroupSelects(s);
      forall i | 0 <= i < |s|
        ensures HasKey(GroupBy(s), s[i].key)
      {
        LastGroupKeys(s, i);
      }
    }
  }

  lemma LastGroupAscends<T>(s: seq<Keyed<T>>)
    requires s != [] && Ascending(s) && StrictlyAscending(GroupBy(Init(s)))
    requires Init(s) != [] ==> GroupBy(Init(s)) != [] && Last(GroupBy(Init(s))).key == Last(Init(s)).key
    ensures StrictlyAscending(GroupBy(s))
  {
  }

  lemma LastGroupSelects<T>(s: seq<Keyed<T>>)
    requires s != [] && Ascending(s) && StrictlyAscending(GroupBy(Init(s))) && Selections(Init(s), GroupBy(Init(s)))
    requires Init(s) != [] ==> GroupBy(Init(s)) != [] && Last(GroupBy(Init(s))).key == Last(Init(s)).key
    ensures Selections(s, GroupBy(s))
  {
    var before, gs, x := GroupBy(Init(s)), GroupBy(s), Last(s);
    assert Init(s) != [] ==> Last(Init(s)).key <= x.key;
    LastGroupAscends(s);
    forall j | 0 <= j < |gs|
      ensures gs[j].items == Select(s, gs[j].key)
    {
      if j < |gs| - 1 {
        assert gs[j].key == before[j].key && gs[j].key < gs[|gs| - 1].key;
      } else if before == [] || Last(before).key != x.key {
        NothingSelected(Init(s), x.key);
      }
    }
  }

  lemma LastGroupKeys<T>(s: seq<Keyed<T>>, i: nat)
    requires s != [] && i < |s|
    requires i < |s| - 1 ==> HasKey(GroupBy(Init(s)), Init(s)[i].key)
    ensures HasKey(GroupBy(s), s[i].key)
  {
    var before, gs := GroupBy(Init(s)), GroupBy(s);
    if i < |s| - 1 {
      var j :| 0 <= j < |before| && before[j].key == s[i].key;
      assert gs[j].key == s[i].key;
    } else {
      assert gs[|gs| - 1].key == s[i].key;
    }
  }

  lemma {:induction false} NothingSelected<T>(s: seq<Keyed<T>>, k: int)
    requires Ascending(s) && (s != [] ==> Last(s).key < k)
    ensures Select(s, k) == []
  {
    if s != [] {
      if |s| > 1 {
        assert s[|s| - 2].key <= s[|s| - 1].key;
      }
      NothingSelected(Init(s), k);
    }
  }

  lemma {:induction false} SelectedMember<T>(s: seq<Keyed<T>>, i: nat)
    requires i < |s|
    ensures s[i].item in Select(s, s[i].key)
  {
    if i < |s| - 1 {
      SelectedMember(Init(s), i);
    }
  }

  lemma {:induction false} SelectedFrom<T>(s: seq<Keyed<T>>, k: int, x: T)
    requires x in Select(s, k)
    ensures exists i :: 0 <= i < |s| && s[i] == Keyed(k, x)
  {
    if x in Select(Init(s), k) {
      SelectedFrom(Init(s), k, x);
      var i :| 0 <= i < |Init(s)| && Init(s)[i] == Keyed(k, x);
      assert s[i] == Keyed(k, x);
    } else {
      assert s[|s| - 1] == Keyed(k, x);
    }
  }

  // ----- The keys and the first rows of the groups, in any order of the rows -----

  ghost predicate Occurs<T>(s: seq<Keyed<T>>, k: int) {
    exists i :: 0 <= i < |s| && s[i].key == k
  }

  /** Grouping invents no key and drops none. */
  lemma {:induction false} KeysAreOccurring<T>(s: seq<Keyed<T>>, k: int)
    ensures HasKey(GroupBy(s), k) <==> Occurs(s, k)
  {
    if s != [] {
      var before, gs, n := GroupBy(Init(s)), GroupBy(s), |s| - 1;
      KeysAreOccurring(Init(s), k);
      if Occurs(s, k) {
        var i :| 0 <= i < |s| && s[i].key == k;
        assert i < n ==> Occurs(Init(s), k) by {
          assert i < n ==> Init(s)[i].key == k;
        }
        LastGroupKeys(s, i);
      }
      if HasKey(gs, k) {
        var j :| 0 <= j < |gs| && gs[j].key == k;
        assert s[n].key == k || (j < |before| && before[j].key == k);
        if s[n].key != k {
          assert HasKey(before, k);
          var i :| 0 <= i < n && Init(s)[i].key == k;
          assert s[i].key == k;
        }
      }
    }
  }

  /** The row begins a stretch of equal keys. */
  predicate Begins<T>(s: seq<Keyed<T>>, i: nat)
    requires i < |s|
  {
    i == 0 || s[i - 1].key != s[i].key
  }

  ghost predicate FirstOf<T>(gs: seq<Group<T>>, x: T) {
    exists j :: 0 <= j < |gs| && gs[j].items != [] && gs[j].items[0] == x
  }

  ghost predicate BeginsAt<T>(s: seq<Keyed<T>>, x: T) {
    exists i :: 0 <= i < |s| && s[i].item == x && Begins(s, i)
  }

  /** The first rows of the groups are those that begin a stretch. */
  lemma {:induction false} FirstsBegin<T>(s: seq<Keyed<T>>, x: T)
    ensures FirstOf(GroupBy(s), x) <==> BeginsAt(s, x)
  {
    if s != [] {
      FirstsBegin(Init(s), x);
      GroupsPartition(Init(s));
      LastRowGroups(s);
      hide GroupBy, FirstOf, BeginsAt;
      FirstsGrow(GroupBy(Init(s)), GroupBy(s), s, x);
    }
  }

  /** The last row opens a group of its own or joins the last group. */
  lemma LastRowJoins<T>(s: seq<Keyed<T>>)
    requires s != []
    requires Init(s) != [] ==> GroupBy(Init(s)) != [] && Last(GroupBy(Init(s))).key == Last(Init(s)).key
    ensures var before, x := GroupBy(Init(s)), Last(s);
      if Begins(s, |s| - 1) then GroupBy(s) == before + [Group(x.key, [x.item])]
      else before != [] && GroupBy(s) == Init(before) + [Group(x.key, Last(before).items + [x.item])]
  {
  }

  lemma FirstsKept<T>(before: seq<Group<T>>, g: Group<T>)
    requires before != [] && g.items != [] && (forall j :: 0 <= j < |before| ==> before[j].items != [])
    requires g.items[0] == Last(before).items[0]
    ensures var gs := Init(before) + [g];
      |gs| == |before| && forall j :: 0 <= j < |gs| ==> gs[j].items != [] && gs[j].items[0] == before[j].items[0]
  {
  }

  lemma LastRowGroups<T>(s: seq<Keyed<T>>)
    requires s != [] && forall g :: g in GroupBy(Init(s)) ==> g.items != []
    requires Init(s) != [] ==> GroupBy(Init(s)) != [] && Last(GroupBy(Init(s))).key == Last(Init(s)).key
    ensures var before, gs := GroupBy(Init(s)), GroupBy(s);
      && |gs| == |before| + (if Begins(s, |s| - 1) then 1 else 0)
      && (forall j :: 0 <= j < |gs| ==> gs[j].items != [])
      && (forall j :: 0 <= j < |before| ==> before[j].items != [] && gs[j].items[0] == before[j].items[0])
      && (|gs| == |before| + 1 ==> gs[|before|].items[0] == s[|s| - 1].item)
  {
    var before, x := GroupBy(Init(s)), Last(s);
    LastRowJoins(s);
    hide GroupBy, Begins;
    assert forall j :: 0 <= j < |before| ==> before[j] in before;
    if !Begins(s, |s| - 1) {
      FirstsKept(before, Group(x.key, Last(before).items + [x.item]));
    }
  }

  lemma FirstsGrow<T>(before: seq<Group<T>>, gs: seq<Group<T>>, s: seq<Keyed<T>>, x: T)
    requires s != [] && (FirstOf(before, x) <==> BeginsAt(Init(s), x))
    requires |before| <= |gs| <= |before| + 1 && (Begins(s, |s| - 1) <==> |gs| == |before| + 1)
    requires forall j :: 0 <= j < |gs| ==> gs[j].items != []
    requires forall j :: 0 <= j < |before| ==> before[j].items != [] && gs[j].items[0] == before[j].items[0]
    requires |gs| == |before| + 1 ==> gs[|before|].items[0] == s[|s| - 1].item
    ensures FirstOf(gs, x) <==> BeginsAt(s, x)
  {
    assert forall i :: 0 <= i < |s| - 1 ==> Begins(Init(s), i) == Begins(s, i) && Init(s)[i] == s[i];
    hide Begins;
    if FirstOf(gs, x) {
      var j :| 0 <= j < |gs| && gs[j].items[0] == x;
      if j < |before| {
        assert before[j].items[0] == x;
        var i :| 0 <= i < |Init(s)| && Init(s)[i].item == x && Begins(Init(s), i);
        assert s[i].item == x && Begins(s, i);
      } else {
        assert s[|s| - 1].item == x && Begins(s, |s| - 1);
      }
    }
    if BeginsAt(s, x) {
      var i :| 0 <= i < |s| && s[i].item == x && Begins(s, i);
      if i < |s| - 1 {
        assert Init(s)[i].item == x && Begins(Init(s), i);
        var j :| 0 <= j < |before| && before[j].items != [] && before[j].items[0] == x;
        assert gs[j].items[0] == x;
      } else {
        assert gs[|before|].items[0] == x;
      }
    }
  }
}
