/**
 * The collection and string helpers of UtilityExtensions.swift.
 *
 * Swift's `Identifiable` is modelled by passing the `id` projection explicitly
 * (`idOf`). The mutating helpers on `RangeReplaceableCollection` act on value
 * types, so each is modelled as a function from the old collection to the new.
 */
module UtilityExtensions {
  import opened Wrappers
  import opened FoundationTypes

  // ---------------------------------------------------------------------------
  // Identifiable collections
  // ---------------------------------------------------------------------------

  /** No two elements of `s` share an id. */
  ghost predicate DistinctIds<T, K>(s: seq<T>, idOf: T -> K) {
    forall i, j :: 0 <= i < j < |s| ==> idOf(s[i]) != idOf(s[j])
  }

  /** `index(matching:)`: the first index whose element has `element`'s id. */
  function IndexMatching<T, K(==)>(s: seq<T>, idOf: T -> K, element: T): (r: Option<nat>)
    ensures r.Some? ==> r.value < |s| && idOf(s[r.value]) == idOf(element)
    ensures r.Some? ==> forall j :: 0 <= j < r.value ==> idOf(s[j]) != idOf(element)
    ensures r.None? <==> forall j :: 0 <= j < |s| ==> idOf(s[j]) != idOf(element)
  {
    if |s| == 0 then None
    else if idOf(s[0]) == idOf(element) then Some(0)
    else
      match IndexMatching(s[1..], idOf, element)
      case None => None
      case Some(i) => Some(i + 1)
  }

  /** `remove(_:)`: deletes the first element with `element`'s id; without one, `s` is kept. */
  function RemoveMatching<T, K(==)>(s: seq<T>, idOf: T -> K, element: T): (r: seq<T>)
    ensures IndexMatching(s, idOf, element).None? ==> r == s
    ensures IndexMatching(s, idOf, element).Some? ==>
      var i := IndexMatching(s, idOf, element).value;
      |r| == |s| - 1 &&
      (forall j :: 0 <= j < i ==> r[j] == s[j]) &&
      (forall j :: i <= j < |r| ==> r[j] == s[j + 1])
  {
    match IndexMatching(s, idOf, element)
    case None => s
    case Some(i) => s[..i] + s[i + 1..]
  }

  /** Deleting position `i` takes exactly `s[i]` out of the multiset. */
  lemma {:induction false} MultisetRemoveAt<T>(s: seq<T>, i: nat)
    requires i < |s|
    ensures multiset(s[..i] + s[i + 1..]) + multiset{s[i]} == multiset(s)
  {
    assert s == s[..i] + ([s[i]] + s[i + 1..]);
  }

  /** Removal takes out exactly one occurrence of the matched element. */
  lemma RemoveMatchingMultiset<T, K>(s: seq<T>, idOf: T -> K, element: T)
    requires IndexMatching(s, idOf, element).Some?
    ensures multiset(RemoveMatching(s, idOf, element)) + multiset{s[IndexMatching(s, idOf, element).value]} == multiset(s)
  {
    var i := IndexMatching(s, idOf, element).value;
    MultisetRemoveAt(s, i);
  }

  /** With distinct ids, removal leaves no element carrying `element`'s id and keeps all others. */
  lemma RemoveMatchingDropsId<T, K>(s: seq<T>, idOf: T -> K, element: T)
    requires DistinctIds(s, idOf)
    ensures DistinctIds(RemoveMatching(s, idOf, element), idOf)
    ensures forall x :: x in RemoveMatching(s, idOf, element) <==> x in s && idOf(x) != idOf(element)
  {
    var r := RemoveMatching(s, idOf, element);
    match IndexMatching(s, idOf, element)
    case None =>
    case Some(i) =>
      assert r == s[..i] + s[i + 1..];
      forall x
        ensures x in r <==> x in s && idOf(x) != idOf(element)
      {
        if x in r {
          var k :| 0 <= k < |r| && r[k] == x;
          if k < i {
            assert r[k] == s[k];
          } else {
            assert r[k] == s[k + 1];
          }
        }
        if x in s && idOf(x) != idOf(element) {
          var k :| 0 <= k < |s| && s[k] == x;
          assert k != i;
          if k < i {
            assert r[k] == x;
          } else {
            assert r[k - 1] == x;
          }
        }
      }
  }

  /** The subscript getter: the element with `element`'s id, or `element` itself when absent. */
  function GetMatching<T, K(==)>(s: seq<T>, idOf: T -> K, element: T): (r: T)
    ensures idOf(r) == idOf(element)
    ensures IndexMatching(s, idOf, element).Some? ==> r == s[IndexMatching(s, idOf, element).value]
    ensures IndexMatching(s, idOf, element).None? ==> r == element
  {
    match IndexMatching(s, idOf, element)
    case Some(i) => s[i]
    case None => element
  }

  /** The subscript setter: replaces the element with `element`'s id by `newValue`; without one, `s` is kept. */
  function SetMatching<T, K(==)>(s: seq<T>, idOf: T -> K, element: T, newValue: T): (r: seq<T>)
    ensures |r| == |s|
    ensures IndexMatching(s, idOf, element).None? ==> r == s
    ensures IndexMatching(s, idOf, element).Some? ==>
      var i := IndexMatching(s, idOf, element).value;
      r[i] == newValue && forall j :: 0 <= j < |s| && j != i ==> r[j] == s[j]
  {
    match IndexMatching(s, idOf, element)
    case None => s
    case Some(i) => s[..i] + [newValue] + s[i + 1..]
  }

  /** Reading back through the subscript after setting a present element to a value with the same id yields that value. */
  lemma GetAfterSet<T, K>(s: seq<T>, idOf: T -> K, element: T, newValue: T)
    requires IndexMatching(s, idOf, element).Some?
    requires idOf(newValue) == idOf(element)
    ensures GetMatching(SetMatching(s, idOf, element, newValue), idOf, element) == newValue
  {
    var r := SetMatching(s, idOf, element, newValue);
    match IndexMatching(s, idOf, element)
    case None =>
    case Some(i) =>
      assert IndexMatching(r, idOf, element) == Some(i) by {
        assert forall j :: 0 <= j < i ==> r[j] == s[j];
      }
  }

  /** Writing back what the subscript read leaves the collection as it was. */
  lemma SetWhatWasGot<T, K>(s: seq<T>, idOf: T -> K, element: T)
    ensures SetMatching(s, idOf, element, GetMatching(s, idOf, element)) == s
  {
    var r := SetMatching(s, idOf, element, GetMatching(s, idOf, element));
    assert |r| == |s|;
    match IndexMatching(s, idOf, element)
    case None =>
    case Some(i) =>
      assert forall j :: 0 <= j < |s| ==> r[j] == s[j];
  }

  // ---------------------------------------------------------------------------
  // removingDuplicateCharacters
  // ---------------------------------------------------------------------------

  ghost predicate NoDuplicates(s: string) {
    forall i, j :: 0 <= i < j < |s| ==> s[i] != s[j]
  }

  /** The position of the first occurrence of `c` in `s`. */
  ghost function FirstIndex(s: string, c: char): (k: nat)
    requires c in s
    ensures k < |s| && s[k] == c && c !in s[..k]
  {
    if s[0] == c then 0
    else
      var k := FirstIndex(s[1..], c);
      assert s[..k + 1] == [s[0]] + s[1..][..k];
      k + 1
  }

  /** Any position holding `c` with no earlier `c` is the first index. */
  lemma FirstIndexUnique(s: string, c: char, k: nat)
    requires k < |s| && s[k] == c && c !in s[..k]
    ensures FirstIndex(s, c) == k
  {
  }

  /** `r` lists characters of `s` in the order in which they first occur in `s`. */
  ghost predicate InFirstOccurrenceOrder(r: string, s: string) {
    forall i, j :: 0 <= i < j < |r| ==> r[i] in s && r[j] in s && FirstIndex(s, r[i]) < FirstIndex(s, r[j])
  }

  /** Reference definition: the fold that keeps each character the first time it is met. */
  ghost function FirstOccurrences(s: string): string
  {
    if |s| == 0 then []
    else
      var kept := FirstOccurrences(s[..|s| - 1]);
      if s[|s| - 1] in kept then kept else kept + [s[|s| - 1]]
  }

  lemma {:induction false} FirstOccurrencesSameCharacters(s: string)
    ensures forall c :: c in FirstOccurrences(s) <==> c in s
  {
    if |s| > 0 {
      var p := s[..|s| - 1];
      FirstOccurrencesSameCharacters(p);
      assert s == p + [s[|s| - 1]];
    }
  }

  lemma {:induction false} FirstOccurrencesNoDuplicates(s: string)
    ensures NoDuplicates(FirstOccurrences(s))
  {
    if |s| > 0 {
      FirstOccurrencesNoDuplicates(s[..|s| - 1]);
    }
  }

  /** An occurrence in a prefix keeps its first index when the string is extended. */
  lemma FirstIndexExtend(p: string, c: char, x: char)
    requires x in p
    ensures (p + [c])[..|p|] == p
    ensures x in p + [c] && FirstIndex(p + [c], x) == FirstIndex(p, x)
  {
    var s := p + [c];
    var k := FirstIndex(p, x);
    assert s[..k] == p[..k];
    FirstIndexUnique(s, x, k);
  }

  lemma {:induction false} FirstOccurrencesOrder(s: string)
    ensures InFirstOccurrenceOrder(FirstOccurrences(s), s)
  {
    if |s| > 0 {
      var p, c := s[..|s| - 1], s[|s| - 1];
      assert s == p + [c];
      var kept := FirstOccurrences(p);
      FirstOccurrencesOrder(p);
      FirstOccurrencesSameCharacters(p);
      var r := FirstOccurrences(s);
      forall i, j | 0 <= i < j < |r|
        ensures r[i] in s && r[j] in s && FirstIndex(s, r[i]) < FirstIndex(s, r[j])
      {
        FirstIndexExtend(p, c, r[i]);
        if j < |kept| {
          FirstIndexExtend(p, c, r[j]);
        } else {
          // r[j] is the new last character, met for the first time at |p|
          assert r[j] == c && c !in p;
          assert s[..|p|] == p;
          FirstIndexUnique(s, c, |p|);
        }
      }
    }
  }

  /** A string without repeated characters is its own first-occurrence list. */
  lemma {:induction false} FirstOccurrencesOfDistinct(s: string)
    requires NoDuplicates(s)
    ensures FirstOccurrences(s) == s
  {
    if |s| > 0 {
      var p := s[..|s| - 1];
      FirstOccurrencesOfDistinct(p);
      assert s[|s| - 1] !in p;
      assert s == p + [s[|s| - 1]];
    }
  }

  lemma FirstOccurrencesIdempotent(s: string)
    ensures FirstOccurrences(FirstOccurrences(s)) == FirstOccurrences(s)
  {
    FirstOccurrencesNoDuplicates(s);
    FirstOccurrencesOfDistinct(FirstOccurrences(s));
  }

  /** `removingDuplicateCharacters`: the `reduce(into:)` loop appending each unseen character. */
  method RemovingDuplicateCharacters(s: string) returns (r: string)
    ensures r == FirstOccurrences(s)
    ensures NoDuplicates(r)
    ensures forall c :: c in r <==> c in s
    ensures InFirstOccurrenceOrder(r, s)
  {
    r := "";
    for i := 0 to |s|
      invariant r == FirstOccurrences(s[..i])
    {
      assert s[..i + 1][..i] == s[..i];
      if s[i] !in r {
        r := r + [s[i]];
      }
    }
    assert s[..|s|] == s;
    FirstOccurrencesNoDuplicates(s);
    FirstOccurrencesSameCharacters(s);
    FirstOccurrencesOrder(s);
  }

  // ---------------------------------------------------------------------------
  // URL.imageURL
  // ---------------------------------------------------------------------------

  /** `components(separatedBy:)` with a one-character separator: the pieces between separators. */
  function Split(s: string, separator: char): (parts: seq<string>)
    ensures |parts| >= 1
    ensures forall k :: 0 <= k < |parts| ==> separator !in parts[k]
  {
    if |s| == 0 then [""]
    else
      var rest := Split(s[1..], separator);
      if s[0] == separator then [""] + rest
      else [[s[0]] + rest[0]] + rest[1..]
  }

  /** The inverse of `Split`: the pieces glued back with the separator between them. */
  function Join(parts: seq<string>, separator: char): string
    requires |parts| >= 1
  {
    if |parts| == 1 then parts[0] else parts[0] + [separator] + Join(parts[1..], separator)
  }

  lemma {:induction false} JoinSplit(s: string, separator: char)
    ensures Join(Split(s, separator), separator) == s
  {
    if |s| > 0 {
      var rest := Split(s[1..], separator);
      JoinSplit(s[1..], separator);
      if s[0] == separator {
        assert ([""] + rest)[1..] == rest;
      } else {
        var parts := [[s[0]] + rest[0]] + rest[1..];
        if |rest| > 1 {
          assert parts[1..] == rest[1..];
          assert Join(rest, separator) == rest[0] + [separator] + Join(rest[1..], separator);
        }
      }
    }
  }

  /** A separator-free piece followed by the separator starts a new piece. */
  lemma {:induction false} SplitPrefix(a: string, separator: char, b: string)
    requires separator !in a
    ensures Split(a + [separator] + b, separator) == [a] + Split(b, separator)
  {
    if |a| > 0 {
      SplitPrefix(a[1..], separator, b);
      assert (a + [separator] + b)[1..] == a[1..] + [separator] + b;
      assert [a[0]] + a[1..] == a;
    } else {
      assert a + [separator] + b == [separator] + b;
      assert ([separator] + b)[1..] == b;
    }
  }

  lemma {:induction false} SplitOfPiece(a: string, separator: char)
    requires separator !in a
    ensures Split(a, separator) == [a]
  {
    if |a| > 0 {
      SplitOfPiece(a[1..], separator);
      assert [a[0]] + a[1..] == a;
    }
  }

  lemma {:induction false} SplitJoin(parts: seq<string>, separator: char)
    requires |parts| >= 1
    requires forall k :: 0 <= k < |parts| ==> separator !in parts[k]
    ensures Split(Join(parts, separator), separator) == parts
  {
    if |parts| == 1 {
      SplitOfPiece(parts[0], separator);
    } else {
      SplitJoin(parts[1..], separator);
      SplitPrefix(parts[0], separator, Join(parts[1..], separator));
    }
  }

  /** The `&`-separated query items; no query gives no items. */
  function QueryItems(query: Option<string>): seq<string> {
    match query
    case None => []
    case Some(q) => Split(q, '&')
  }

  /**
   * What one query item yields: it must split on `=` into exactly two parts, the first
   * being `imgurl`, and the percent-decoded second part (or "" when decoding fails)
   * must make a URL. Percent-decoding and URL construction are uninterpreted.
   */
  function ImageURLCandidate(item: string, removingPercentEncoding: string -> Option<string>,
                             makeURL: string -> Option<URL>): Option<URL>
  {
    var components := Split(item, '=');
    if |components| == 2 && components[0] == "imgurl" then
      makeURL(removingPercentEncoding(components[1]).GetOr(""))
    else None
  }

  /**
   * `URL.imageURL`: the first query item that yields a URL, else `baseURL ?? self`.
   * `query` and `baseURL` are the URL's own components, given as inputs.
   */
  method ImageURL(url: URL, query: Option<string>, baseURL: Option<URL>,
                  removingPercentEncoding: string -> Option<string>, makeURL: string -> Option<URL>)
    returns (r: URL)
    ensures var items := QueryItems(query);
      || (exists i :: 0 <= i < |items| && ImageURLCandidate(items[i], removingPercentEncoding, makeURL) == Some(r) &&
                    forall j :: 0 <= j < i ==> ImageURLCandidate(items[j], removingPercentEncoding, makeURL).None?)
      || ((forall i :: 0 <= i < |items| ==> ImageURLCandidate(items[i], removingPercentEncoding, makeURL).None?) &&
          r == baseURL.GetOr(url))
  {
    var items := QueryItems(query);
    for i := 0 to |items|
      invariant forall j :: 0 <= j < i ==> ImageURLCandidate(items[j], removingPercentEncoding, makeURL).None?
    {
      var queryComponents := Split(items[i], '=');
      if |queryComponents| == 2 {
        if queryComponents[0] == "imgurl" {
          var candidate := makeURL(removingPercentEncoding(queryComponents[1]).GetOr(""));
          if candidate.Some? {
            assert ImageURLCandidate(items[i], removingPercentEncoding, makeURL) == candidate;
            return candidate.value;
          }
        }
      }
      assert ImageURLCandidate(items[i], removingPercentEncoding, makeURL).None?;
    }
    return baseURL.GetOr(url);
  }
}
