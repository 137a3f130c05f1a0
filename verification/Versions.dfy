/** Firmware versions of catalog/compatibility.py: padded lexicographic comparison, ranges and filtering. */
module Versions {
  import opened Options
  import opened Digits

  type Version = seq<nat>

  // ----- Text -----

  /** The values of the maximal runs of digits; surrounding space holds none, so stripping it changes nothing. */
  function VersionOf(text: string): Version
    decreases |text|
  {
    if text == "" then []
    else
      var n := RunLength(text);
      if n == 0 then VersionOf(text[1..]) else [ValueOf(text[..n])] + VersionOf(text[n..])
  }

  function RenderVersion(v: Version): string {
    if v == [] then "" else if |v| == 1 then Render(v[0]) else Render(v[0]) + "." + RenderVersion(v[1..])
  }

  /** Printing with dots and reading gives the components back. */
  lemma {:induction false} VersionRoundTrip(v: Version)
    ensures VersionOf(RenderVersion(v)) == v
  {
    hide Render, ValueOf;
    if v != [] {
      var head, text := Render(v[0]), RenderVersion(v);
      ValueOfRender(v[0]);
      if |v| == 1 {
        RunLengthUnique(text, |head|);
        assert text[..|head|] == head && text[|head|..] == "";
      } else {
        var rest := RenderVersion(v[1..]);
        assert text[..|head|] == head && text[|head|] == '.' && text[|head|..] == "." + rest;
        RunLengthUnique(text, |head|);
        RunLengthUnique("." + rest, 0);
        assert ("." + rest)[1..] == rest;
        VersionRoundTrip(v[1..]);
        assert v == [v[0]] + v[1..];
      }
    }
  }

  /** Every maximal run of digits is read as one component, whatever separates it from the next. */
  lemma {:induction false} DigitRunsAreRead(before: string, digits: string, rest: string)
    requires forall i :: 0 <= i < |before| ==> !IsDigit(before[i])
    requires digits != "" && AllDigits(digits) && (rest != "" ==> !IsDigit(rest[0]))
    ensures VersionOf(before + digits + rest) == [ValueOf(digits)] + VersionOf(rest)
    ensures VersionOf(before) == []
  {
    hide ValueOf;
    var text := before + digits + rest;
    if before == "" {
      RunLengthUnique(text, |digits|);
      assert text[..|digits|] == digits && text[|digits|..] == rest;
    } else {
      assert text[0] == before[0] && text[1..] == before[1..] + digits + rest;
      RunLengthUnique(text, 0);
      RunLengthUnique(before, 0);
      DigitRunsAreRead(before[1..], digits, rest);
    }
  }

  // ----- Comparison -----

  function Zeros(n: nat): Version {
    seq(n, i => 0)
  }

  function Pad(v: Version, width: nat): Version
    requires |v| <= width
  {
    v + Zeros(width - |v|)
  }

  /** Comparison of tuples. */
  function Lexicographic(a: seq<nat>, b: seq<nat>): int {
    if a == [] && b == [] then 0
    else if a == [] then -1
    else if b == [] then 1
    else if a[0] < b[0] then -1
    else if a[0] > b[0] then 1
    else Lexicographic(a[1..], b[1..])
  }

  function Compare(a: Version, b: Version): Option<int> {
    if a == [] || b == [] then None
    else
      var width := if |a| < |b| then |b| else |a|;
      Some(Lexicographic(Pad(a, width), Pad(b, width)))
  }

  function Component(v: Version, i: nat): nat {
    if i < |v| then v[i] else 0
  }

  ghost predicate SameBefore(a: Version, b: Version, k: nat) {
    forall i: nat :: i < k ==> Component(a, i) == Component(b, i)
  }

  /** The meaning of a comparison, without any width: the first component that differs decides. */
  ghost predicate Less(a: Version, b: Version) {
    exists k: nat :: SameBefore(a, b, k) && Component(a, k) < Component(b, k)
  }

  ghost predicate Same(a: Version, b: Version) {
    forall i: nat :: Component(a, i) == Component(b, i)
  }

  /** For tuples of one length: the sign, and the position that decides. */
  lemma {:induction false} Decide(a: seq<nat>, b: seq<nat>) returns (k: nat)
    requires |a| == |b|
    ensures k <= |a| && forall i :: 0 <= i < k ==> a[i] == b[i]
    ensures k == |a| ==> Lexicographic(a, b) == 0
    ensures k < |a| ==> a[k] != b[k] && Lexicographic(a, b) == if a[k] < b[k] then -1 else 1
  {
    if a == [] || a[0] != b[0] {
      k := 0;
    } else {
      var j := Decide(a[1..], b[1..]);
      k := j + 1;
      forall i | 0 <= i < k
        ensures a[i] == b[i]
      {
        assert i > 0 ==> a[1..][i - 1] == b[1..][i - 1];
      }
    }
  }

  lemma NotBoth(a: Version, b: Version)
    ensures !(Less(a, b) && Less(b, a)) && !(Less(a, b) && Same(a, b))
  {
  }

  /** The padded comparison of any two numeric versions decides exactly this order. */
  lemma CompareExactly(a: Version, b: Version)
    requires a != [] && b != []
    ensures Compare(a, b).Some? && -1 <= Compare(a, b).value <= 1
    ensures Compare(a, b).value < 0 <==> Less(a, b)
    ensures Compare(a, b).value > 0 <==> Less(b, a)
    ensures Compare(a, b).value == 0 <==> Same(a, b)
  {
    var width := if |a| < |b| then |b| else |a|;
    var p, q := Pad(a, width), Pad(b, width);
    var k := Decide(p, q);
    assert forall i: nat :: i < width ==> p[i] == Component(a, i) && q[i] == Component(b, i);
    assert SameBefore(a, b, k) && SameBefore(b, a, k);
    NotBoth(a, b);
    NotBoth(b, a);
    hide Lexicographic;
    if k < width {
      assert Component(a, k) < Component(b, k) ==> Less(a, b);
      assert Component(b, k) < Component(a, k) ==> Less(b, a);
      assert !Same(a, b);
    } else {
      forall i: nat
        ensures Component(a, i) == Component(b, i)
      {
        assert i < width ==> p[i] == q[i];
      }
    }
  }

  lemma LessTransitive(a: Version, b: Version, c: Version)
    requires (Less(a, b) || Same(a, b)) && (Less(b, c) || Same(b, c))
    ensures Less(a, c) || (Same(a, b) && Same(b, c) && Same(a, c))
  {
  }

  /** A total preorder on numeric versions of any lengths, although the padding width differs from pair to pair. */
  lemma ComparePreorder(a: Version, b: Version, c: Version)
    requires a != [] && b != [] && c != []
    ensures Compare(a, a) == Some(0)
    ensures Compare(b, a).value == -Compare(a, b).value
    ensures Compare(a, b).value <= 0 && Compare(b, c).value <= 0 ==> Compare(a, c).value <= 0
    ensures Compare(a, b).value <= 0 && Compare(b, c).value <= 0 && Compare(a, b).value + Compare(b, c).value < 0 ==> Compare(a, c).value < 0
  {
    CompareExactly(a, a);
    CompareExactly(a, b);
    CompareExactly(b, a);
    CompareExactly(b, c);
    CompareExactly(a, c);
    NotBoth(a, b);
    assert Same(a, a);
    hide Compare, Less, Same;
    if Compare(a, b).value <= 0 && Compare(b, c).value <= 0 {
      LessTransitive(a, b, c);
    }
  }

  /** Trailing zero components never matter. */
  lemma TrailingZerosIrrelevant(a: Version, b: Version, n: nat)
    requires a != [] && b != []
    ensures Compare(a + Zeros(n), a) == Some(0)
    ensures Compare(a + Zeros(n), b) == Compare(a, b) && Compare(b, a + Zeros(n)) == Compare(b, a)
  {
    var z := a + Zeros(n);
    assert Same(z, a);
    CompareExactly(z, a);
    SameCompares(z, a, b);
  }

  lemma SameCompares(z: Version, a: Version, b: Version)
    requires z != [] && a != [] && b != [] && Same(z, a)
    ensures Compare(z, b) == Compare(a, b) && Compare(b, z) == Compare(b, a)
  {
    hide *;
    SameOrders(z, a, b);
    CompareExactly(z, b);
    CompareExactly(a, b);
    CompareExactly(b, z);
    CompareExactly(b, a);
  }

  lemma SameOrders(z: Version, a: Version, b: Version)
    requires Same(z, a)
    ensures (Less(z, b) <==> Less(a, b)) && (Less(b, z) <==> Less(b, a)) && (Same(z, b) <==> Same(a, b))
  {
  }

  // ----- Ranges -----

  /** A bound is the version of its text; `None` for the result is the error of a bound without digits. */
  function InRange(value: Version, since: Option<Version>, until: Option<Version>): Option<bool> {
    if value == [] then Some(since.None? && until.None?)
    else
      var low := if since.Some? then Compare(value, since.value) else Some(0);
      if low.None? then None
      else if low.value < 0 then Some(false)
      else
        var high := if until.Some? then Compare(value, until.value) else Some(0);
        if high.None? then None else Some(high.value <= 0)
  }

  /** A range holds what is neither before its first nor after its last version; bounds without digits cannot be judged. */
  lemma RangeExactly(value: Version, since: Option<Version>, until: Option<Version>)
    ensures value == [] ==> InRange(value, since, until) == Some(since.None? && until.None?)
    ensures value != [] && since != Some([]) && until != Some([]) ==>
      InRange(value, since, until)
      == Some((since.Some? ==> !Less(value, since.value)) && (until.Some? ==> !Less(until.value, value)))
    ensures value != [] && since == Some([]) ==> InRange(value, since, until).None?
    ensures value != [] && since != Some([]) && until == Some([]) ==>
      InRange(value, since, until) == if since.Some? && Less(value, since.value) then Some(false) else None
  {
    hide Less;
    if value != [] && since.Some? && since.value != [] {
      CompareExactly(value, since.value);
    }
    if value != [] && until.Some? && until.value != [] {
      CompareExactly(value, until.value);
    }
  }

  /** The versions in a range are convex. */
  lemma RangeIsConvex(x: Version, y: Version, z: Version, since: Option<Version>, until: Option<Version>)
    requires x != [] && y != [] && z != []
    requires InRange(x, since, until) == Some(true) && InRange(z, since, until) == Some(true)
    requires Compare(x, y).value <= 0 && Compare(y, z).value <= 0
    ensures InRange(y, since, until) == Some(true)
  {
    if since.Some? {
      ComparePreorder(since.value, x, y);
      ComparePreorder(x, since.value, y);
      ComparePreorder(y, since.value, x);
    }
    if until.Some? {
      ComparePreorder(y, z, until.value);
    }
    hide Compare;
  }

  // ----- Filtering -----

  datatype Item<T> = Item(content: T, since: Option<Version>, until: Option<Version>)

  /** One unreadable bound fails the whole listing. */
  function EffectiveItems<T>(items: seq<Item<T>>, firmware: Version): Option<seq<Item<T>>> {
    if items == [] then Some([])
    else
      var n := |items| - 1;
      var before := EffectiveItems(items[..n], firmware);
      var last := InRange(firmware, items[n].since, items[n].until);
      if before.None? || last.None? then None
      else Some(before.value + if last.value then [items[n]] else [])
  }

  ghost predicate Readable<T>(items: seq<Item<T>>, firmware: Version) {
    forall i :: 0 <= i < |items| ==> InRange(firmware, items[i].since, items[i].until).Some?
  }

  predicate Effective<T>(item: Item<T>, firmware: Version) {
    InRange(firmware, item.since, item.until) == Some(true)
  }

  /** `at` lists in order the positions of the items in range, and `kept` the items there. */
  ghost predicate Filtered<T>(items: seq<Item<T>>, firmware: Version, at: seq<nat>, kept: seq<Item<T>>) {
    && |at| == |kept|
    && (forall i, j :: 0 <= i < j < |at| ==> at[i] < at[j])
    && (forall i :: 0 <= i < |at| ==> at[i] < |items| && kept[i] == items[at[i]] && Effective(items[at[i]], firmware))
    && (forall k: nat :: k < |items| && Effective(items[k], firmware) ==> k in at)
  }

  /** The effective items are exactly those in range, each as often and in the order it occurs. */
  lemma {:induction false} EffectiveIsFilter<T>(items: seq<Item<T>>, firmware: Version) returns (at: seq<nat>)
    ensures EffectiveItems(items, firmware).Some? <==> Readable(items, firmware)
    ensures Readable(items, firmware) ==> Filtered(items, firmware, at, EffectiveItems(items, firmware).value)
  {
    hide InRange;
    at := [];
    if items != [] {
      var n := |items| - 1;
      at := EffectiveIsFilter(items[..n], firmware);
      assert Readable(items, firmware) <==>
        Readable(items[..n], firmware) && InRange(firmware, items[n].since, items[n].until).Some?;
      if Effective(items[n], firmware) {
        at := at + [n];
      }
    }
  }
}
