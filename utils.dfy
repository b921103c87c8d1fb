/** utils.py: the project-name autocompleter and the administrator check.
    The same autocompleter body appears again at bot.py:14-25; `Complete`
    models that shared body once. */
module Utils {
  import opened Options

  /** The slice `[:25]`: at most 25 suggestions are returned. */
  const MaxChoices: nat := 25

  /** `str.lower()` restricted to ASCII letters. */
  function LowerChar(c: char): char {
    if 'A' <= c <= 'Z' then (c as int - 'A' as int + 'a' as int) as char else c
  }

  function Lower(s: string): string {
    seq(|s|, i requires 0 <= i < |s| => LowerChar(s[i]))
  }

  /** `needle` occurs in `hay` starting at index `k`. */
  predicate OccursAt(hay: string, needle: string, k: int) {
    0 <= k <= |hay| - |needle| && hay[k..k + |needle|] == needle
  }

  /** Python's substring test `needle in hay`. */
  predicate Contains(hay: string, needle: string) {
    exists k :: 0 <= k <= |hay| && OccursAt(hay, needle, k)
  }

  /** `a` is `b` with some elements left out, the rest in their order. */
  predicate IsSubsequence(a: seq<string>, b: seq<string>)
    decreases |b|
  {
    a == [] || (b != [] && ((a[0] == b[0] && IsSubsequence(a[1..], b[1..])) || IsSubsequence(a, b[1..])))
  }

  lemma {:induction false} SubsequenceMembers(a: seq<string>, b: seq<string>)
    requires IsSubsequence(a, b)
    ensures forall x :: x in a ==> x in b
    decreases |b|
  {
    if a != [] {
      if a[0] == b[0] && IsSubsequence(a[1..], b[1..]) {
        SubsequenceMembers(a[1..], b[1..]);
        assert forall x :: x in a ==> x == a[0] || x in a[1..];
        assert forall x :: x in b[1..] ==> x in b;
      } else {
        SubsequenceMembers(a, b[1..]);
        assert forall x :: x in b[1..] ==> x in b;
      }
    }
  }

  lemma {:induction false} PrefixSubsequence(a: seq<string>, b: seq<string>, n: nat)
    requires IsSubsequence(a, b) && n <= |a|
    ensures IsSubsequence(a[..n], b)
    decreases |b|
  {
    if n != 0 {
      if a[0] == b[0] && IsSubsequence(a[1..], b[1..]) {
        PrefixSubsequence(a[1..], b[1..], n - 1);
        assert a[..n][1..] == a[1..][..n - 1];
      } else {
        PrefixSubsequence(a, b[1..], n);
      }
    }
  }

  lemma {:induction false} SubsequenceOfSelf(s: seq<string>)
    ensures IsSubsequence(s, s)
    decreases |s|
  {
    if s != [] { SubsequenceOfSelf(s[1..]); }
  }

  /** The comprehension `[p for p in cached_projects if query in p.lower()]`
      (utils.py:18): in cache order, each matching name as often as the
      cache holds it, and no other name. */
  function Matching(query: string, cache: seq<string>): (r: seq<string>)
    ensures IsSubsequence(r, cache)
    ensures forall x :: multiset(r)[x] == if Contains(Lower(x), query) then multiset(cache)[x] else 0
  {
    if cache == [] then []
    else
      var rest := Matching(query, cache[1..]);
      assert cache == [cache[0]] + cache[1..];
      if Contains(Lower(cache[0]), query) then
        assert ([cache[0]] + rest)[1..] == rest;
        [cache[0]] + rest
      else rest
  }

  /** The slice `s[:n]`. */
  function Take(s: seq<string>, n: nat): (r: seq<string>)
    ensures |r| <= n
  {
    if |s| <= n then s else s[..n]
  }

  lemma TakeSubsequence(a: seq<string>, b: seq<string>, n: nat)
    requires IsSubsequence(a, b)
    ensures IsSubsequence(Take(a, n), b)
    ensures forall x :: x in Take(a, n) ==> x in b
  {
    if |a| > n { PrefixSubsequence(a, b, n); }
    SubsequenceMembers(Take(a, n), b);
  }

  /** The body of the autocompleter once the cache has been read
      (utils.py:11, 15-18; bot.py:16, 19-22). */
  function Complete(value: string, cache: seq<string>): (r: seq<string>)
    ensures |r| <= MaxChoices
    ensures IsSubsequence(r, cache)
    ensures forall x :: x in r ==> x in cache
    ensures value == "" ==> r == cache[..if |cache| < MaxChoices then |cache| else MaxChoices]
  {
    var query := Lower(value);
    var all := if query == [] then cache else Matching(query, cache);
    SubsequenceOfSelf(cache);
    TakeSubsequence(all, cache, MaxChoices);
    Take(all, MaxChoices)
  }

  /** Every name contains the empty string, so the `if not query` shortcut
      returns exactly what the filter would. */
  lemma {:induction false} EmptyQueryMatchesAll(cache: seq<string>)
    ensures Matching("", cache) == cache
  {
    if cache != [] {
      EmptyQueryMatchesAll(cache[1..]);
      assert OccursAt(Lower(cache[0]), "", 0);
      assert cache == [cache[0]] + cache[1..];
    }
  }

  /** Whatever the query, the result is the first 25 matching names. */
  lemma CompleteIsTruncatedMatching(value: string, cache: seq<string>)
    ensures Complete(value, cache) == Take(Matching(Lower(value), cache), MaxChoices)
  {
    if Lower(value) == [] { EmptyQueryMatchesAll(cache); }
  }

  /** Two strings that agree up to the case of ASCII letters. */
  predicate SameIgnoringCase(a: string, b: string) {
    |a| == |b| && forall i :: 0 <= i < |a| ==> LowerChar(a[i]) == LowerChar(b[i])
  }

  /** Queries that differ only in letter case give the same suggestions. */
  lemma CaseInsensitive(v1: string, v2: string, cache: seq<string>)
    requires SameIgnoringCase(v1, v2)
    ensures Complete(v1, cache) == Complete(v2, cache)
  {
    assert Lower(v1) == Lower(v2);
  }

  /** `project_autocompleter` of utils.py:8-21: a bot without a
      `project_cache` attribute is read as an empty cache. */
  function ProjectAutocompleter(value: string, projectCache: Option<seq<string>>): (r: seq<string>)
    ensures projectCache.None? ==> r == []
    ensures projectCache.Some? ==> r == Complete(value, projectCache.value)
  {
    Complete(value, if projectCache.Some? then projectCache.value else [])
  }

  /** The predicate of `is_admin` (utils.py:23-29): the author's id is among
      the ids in the bot's `admin_user_ids` attribute; a bot without that
      attribute has none. */
  function IsAdmin(authorId: int, adminUserIds: Option<set<int>>): (r: bool)
    ensures r ==> adminUserIds.Some? && authorId in adminUserIds.value
    ensures adminUserIds.Some? && authorId in adminUserIds.value ==> r
    ensures adminUserIds.None? || adminUserIds.value == {} ==> !r
  {
    authorId in (if adminUserIds.Some? then adminUserIds.value else {})
  }
}
