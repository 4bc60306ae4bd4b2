/**
 * The option filter of the select component: which options the dropdown shows,
 * given the option list, the exclusion list, the selected value and the text
 * typed into the search box.
 */
module OptionFilter {
  import opened Values

  /** An option record: its `id` and its other string-valued properties. */
  datatype Item = Item(id: string, props: map<string, string>)

  /** Whether `item[key]` is defined; the `id` property always is. */
  predicate HasField(item: Item, key: string) {
    key == "id" || key in item.props
  }

  /** `item[key]`. */
  function Field(item: Item, key: string): string
    requires HasField(item, key)
  {
    if key == "id" then item.id else item.props[key]
  }

  predicate AllHaveField(items: seq<Item>, key: string) {
    forall item :: item in items ==> HasField(item, key)
  }

  // ---------------------------------------------------------------------------
  // Order-preserving selection

  /** `a` is `b` with some elements taken out, the rest in their order. */
  ghost predicate IsSubsequence<T>(a: seq<T>, b: seq<T>)
    decreases |b|
  {
    if a == [] then true
    else if b == [] then false
    else (a[0] == b[0] && IsSubsequence(a[1..], b[1..])) || IsSubsequence(a, b[1..])
  }

  lemma {:induction false} SubsequenceRefl<T>(a: seq<T>)
    ensures IsSubsequence(a, a)
  {
    if a != [] {
      SubsequenceRefl(a[1..]);
    }
  }

  lemma SubsequenceOfCons<T>(a: seq<T>, y: T, b: seq<T>)
    requires IsSubsequence(a, b)
    ensures IsSubsequence(a, [y] + b)
  {
  }

  /**
   * `Array.prototype.filter`: the elements of `xs` that `keep` accepts, in
   * order, each one as often as it occurs in `xs`.
   */
  function Filter<T(!new)>(xs: seq<T>, keep: T -> bool): (r: seq<T>)
    ensures IsSubsequence(r, xs)
    ensures forall x :: x in r <==> x in xs && keep(x)
    ensures forall x :: multiset(r)[x] == if keep(x) then multiset(xs)[x] else 0
  {
    if xs == [] then []
    else
      assert xs == [xs[0]] + xs[1..];
      var rest := Filter(xs[1..], keep);
      if keep(xs[0]) then
        assert ([xs[0]] + rest)[1..] == rest;
        [xs[0]] + rest
      else
        SubsequenceOfCons(rest, xs[0], xs[1..]);
        rest
  }

  /** Filtering with a weaker test keeps everything a stronger test keeps, in the same order. */
  lemma {:induction false} FilterMonotone<T(!new)>(xs: seq<T>, p: T -> bool, q: T -> bool)
    requires forall x :: p(x) ==> q(x)
    ensures IsSubsequence(Filter(xs, p), Filter(xs, q))
  {
    if xs != [] {
      FilterMonotone(xs[1..], p, q);
      var rp, rq := Filter(xs[1..], p), Filter(xs[1..], q);
      if p(xs[0]) {
        assert ([xs[0]] + rp)[1..] == rp && ([xs[0]] + rq)[1..] == rq;
      } else if q(xs[0]) {
        SubsequenceOfCons(rp, xs[0], rq);
      }
    }
  }

  // ---------------------------------------------------------------------------
  // Lower-casing and substring search

  /**
   * Per-character lower-casing of the ASCII letters A-Z: the result is never
   * upper-case, only upper-case letters change, and they become lower-case
   * letters.
   */
  function LowerChar(c: char): (d: char)
    ensures !('A' <= d <= 'Z')
    ensures d != c ==> 'A' <= c <= 'Z'
    ensures 'A' <= c <= 'Z' ==> 'a' <= d <= 'z'
  {
    if 'A' <= c <= 'Z' then (c as int + 32) as char else c
  }

  /** `String.prototype.toLowerCase`, character by character. */
  function Lower(s: string): (r: string)
    ensures |r| == |s|
    ensures forall i :: 0 <= i < |s| ==> r[i] == LowerChar(s[i])
  {
    if s == [] then [] else [LowerChar(s[0])] + Lower(s[1..])
  }

  lemma LowerIdempotent(s: string)
    ensures Lower(Lower(s)) == Lower(s)
  {
  }

  /** `t` occurs in `s` starting at index `k`. */
  predicate OccursAt(s: string, t: string, k: int) {
    0 <= k && k + |t| <= |s| && s[k..k + |t|] == t
  }

  /** `t` is a substring of `s`. */
  ghost predicate Occurs(s: string, t: string) {
    exists k :: OccursAt(s, t, k)
  }

  lemma OccursAtShift(s: string, t: string, k: int)
    requires s != [] && 0 <= k
    ensures OccursAt(s, t, k + 1) <==> OccursAt(s[1..], t, k)
  {
  }

  /**
   * `String.prototype.indexOf`: the first index at which `t` occurs in `s`,
   * or -1 when it does not occur.
   */
  function IndexOf(s: string, t: string): (r: int)
    ensures -1 <= r
    ensures r >= 0 ==> OccursAt(s, t, r)
    ensures forall k :: 0 <= k && (r < 0 || k < r) ==> !OccursAt(s, t, k)
    decreases |s|
  {
    if |t| > |s| then -1
    else if s[..|t|] == t then 0
    else
      var i := IndexOf(s[1..], t);
      assert !OccursAt(s, t, 0) by {
        assert s[0..|t|] == s[..|t|];
      }
      assert forall k :: 1 <= k ==> (OccursAt(s, t, k) <==> OccursAt(s[1..], t, k - 1)) by {
        forall k | 1 <= k ensures OccursAt(s, t, k) <==> OccursAt(s[1..], t, k - 1) {
          OccursAtShift(s, t, k - 1);
        }
      }
      if i < 0 then -1 else i + 1
  }

  /** The source's test `s.indexOf(t) > -1` is exactly "t is a substring of s". */
  lemma IndexOfFindsSubstring(s: string, t: string)
    ensures IndexOf(s, t) > -1 <==> Occurs(s, t)
  {
  }

  // ---------------------------------------------------------------------------
  // filterOptions

  /** The search test: `item[mainKey].toLowerCase().indexOf(needle) > -1`. */
  predicate Matches(item: Item, needle: string, mainKey: string) {
    HasField(item, mainKey) && IndexOf(Lower(Field(item, mainKey)), needle) > -1
  }

  /**
   * The list `filterOptions` publishes. With no search text, every option is
   * shown except the excluded ones, and the selected one is shown even when it
   * is excluded; with no exclusions the list is a copy of the options. With
   * search text, an option is shown when its `mainKey` property contains the
   * text, both lower-cased, and it is not excluded, selected or not. Reading
   * `mainKey` on an option that lacks it faults, so that is required when the
   * search text is non-empty.
   */
  function FilterOptions(options: seq<Item>, exclude: seq<string>, current: JsValue,
                         search: JsValue, mainKey: string): (r: seq<Item>)
    requires Truthy(search) ==> AllHaveField(options, mainKey)
    ensures IsSubsequence(r, options)
    ensures forall o :: multiset(r)[o] == if o in r then multiset(options)[o] else 0
    ensures Falsy(search) && exclude == [] ==> r == options
    ensures Falsy(search) && exclude != [] ==>
      forall o :: o in r <==> o in options && (current == Str(o.id) || o.id !in exclude)
    ensures Truthy(search) ==>
      forall o :: o in r <==>
        o in options && o.id !in exclude && Occurs(Lower(Field(o, mainKey)), Lower(search.s))
  {
    if Falsy(search) then
      if |exclude| > 0 then
        Filter(options, (o: Item) => Str(o.id) == current || o.id !in exclude)
      else
        SubsequenceRefl(options);
        options
    else
      var needle := Lower(search.s);
      var r := Filter(options, (o: Item) => Matches(o, needle, mainKey) && o.id !in exclude);
      assert forall o :: o in options ==> (Matches(o, needle, mainKey) <==> Occurs(Lower(Field(o, mainKey)), needle)) by {
        forall o | o in options
          ensures Matches(o, needle, mainKey) <==> Occurs(Lower(Field(o, mainKey)), needle)
        {
          IndexOfFindsSubstring(Lower(Field(o, mainKey)), needle);
        }
      }
      r
  }

  // ---------------------------------------------------------------------------
  // Properties of filterOptions

  /** Without search text, the selected option is never hidden. */
  lemma SelectedShownWithoutSearch(options: seq<Item>, exclude: seq<string>, search: JsValue,
                                   mainKey: string, o: Item)
    requires Falsy(search) && o in options
    ensures o in FilterOptions(options, exclude, Str(o.id), search, mainKey)
  {
  }

  /**
   * With search text the exemption is gone: the selected option is hidden when
   * it is excluded, although it is shown when the search box is empty.
   */
  lemma SelectedExcludedHiddenWhileSearching(options: seq<Item>, exclude: seq<string>, search: JsValue,
                                             mainKey: string, o: Item)
    requires Truthy(search) && AllHaveField(options, mainKey)
    requires o in options && o.id in exclude
    ensures o !in FilterOptions(options, exclude, Str(o.id), search, mainKey)
    ensures o in FilterOptions(options, exclude, Str(o.id), Null, mainKey)
  {
  }

  /**
   * Typing search text only ever narrows the list: what is shown while
   * searching is a subsequence of what is shown with the search box empty.
   */
  lemma SearchNarrows(options: seq<Item>, exclude: seq<string>, current: JsValue,
                      search: JsValue, mainKey: string)
    requires Truthy(search) && AllHaveField(options, mainKey)
    ensures IsSubsequence(FilterOptions(options, exclude, current, search, mainKey),
                          FilterOptions(options, exclude, current, Null, mainKey))
  {
    var needle := Lower(search.s);
    var p := (o: Item) => Matches(o, needle, mainKey) && o.id !in exclude;
    if |exclude| > 0 {
      FilterMonotone(options, p, (o: Item) => Str(o.id) == current || o.id !in exclude);
    }
  }

  // ---------------------------------------------------------------------------
  // Worked cases

  lemma SubsequencesOfSingle(r: seq<Item>, b: Item)
    requires IsSubsequence(r, [b])
    ensures r == [] || r == [b]
  {
    if r != [] {
      assert [b][1..] == [];
      assert r[0] == b && r[1..] == [];
      assert r == [r[0]] + r[1..];
    }
  }

  /** The order-preserving selections from a list of two options. */
  lemma SubsequencesOfPair(r: seq<Item>, a: Item, b: Item)
    requires IsSubsequence(r, [a, b])
    ensures r == [] || r == [a] || r == [b] || r == [a, b]
  {
    assert [a, b][1..] == [b];
    if r != [] {
      if r[0] == a && IsSubsequence(r[1..], [b]) {
        SubsequencesOfSingle(r[1..], b);
        assert r == [r[0]] + r[1..];
      } else {
        SubsequencesOfSingle(r, b);
      }
    }
  }

  /** With `a` selected and excluded and the search box empty, both options are shown. */
  lemma SelectedExemptCase()
    ensures var a, b := Item("1", map["name" := "a"]), Item("2", map["name" := "b"]);
      FilterOptions([a, b], ["1"], Str("1"), Null, "name") == [a, b]
  {
    var a, b := Item("1", map["name" := "a"]), Item("2", map["name" := "b"]);
    var r := FilterOptions([a, b], ["1"], Str("1"), Null, "name");
    assert a in r && b in r;
    SubsequencesOfPair(r, a, b);
  }

  /** Searching "b" with `a` selected and excluded shows only `b`. */
  lemma ExcludedWhileSearchingCase(a: Item, b: Item)
    requires a == Item("1", map["name" := "a"]) && b == Item("2", map["name" := "b"])
    ensures FilterOptions([a, b], ["1"], Str("1"), Str("b"), "name") == [b]
  {
    var r := FilterOptions([a, b], ["1"], Str("1"), Str("b"), "name");
    assert Lower(Field(b, "name")) == "b" && Lower("b") == "b";
    assert OccursAt("b", "b", 0);
    assert a !in r && b in r;
    SubsequencesOfPair(r, a, b);
  }

  lemma AlphaHasAl()
    ensures OccursAt(Lower("Alpha"), Lower("AL"), 0)
  {
  }

  lemma BetaLacksAl()
    ensures !Occurs(Lower("Beta"), Lower("AL"))
  {
  }

  /** The search is case-insensitive: "AL" finds "Alpha" and not "Beta". */
  lemma CaseInsensitiveCase(a: Item, b: Item)
    requires a == Item("1", map["name" := "Alpha"]) && b == Item("2", map["name" := "Beta"])
    ensures FilterOptions([a, b], [], Null, Str("AL"), "name") == [a]
  {
    var r := FilterOptions([a, b], [], Null, Str("AL"), "name");
    assert Field(a, "name") == "Alpha" && Field(b, "name") == "Beta";
    AlphaHasAl();
    BetaLacksAl();
    assert a in r && b !in r;
    SubsequencesOfPair(r, a, b);
  }
}
