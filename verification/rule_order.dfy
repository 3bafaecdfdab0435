/**
 The order `add_rule` keeps a faucet's rule list in: `sorted(rules, key=len,
 reverse=True)`, a stable sort by descending clause count. Here it is an
 insertion sort that is proved stable, together with the consequence that
 matters for routing: the first matching rule of the sorted list is the
 matching rule with the most clauses, and among those the one added first.
 */
module RuleOrder {
  import opened Wrappers
  import opened Messages
  import opened Rules

  /** Non-increasing specificity from front to back. */
  predicate Sorted(s: seq<Rule>) {
    forall i, j :: 0 <= i < j < |s| ==> Specificity(s[i]) >= Specificity(s[j])
  }

  /** The rules of `s` that have exactly `k` clauses, in their order in `s`. */
  function WithSpecificity(s: seq<Rule>, k: nat): seq<Rule> {
    if s == [] then []
    else (if Specificity(s[0]) == k then [s[0]] else []) + WithSpecificity(s[1..], k)
  }

  /** Every rule of a bucket comes from `s` and has the bucket's clause count. */
  lemma {:induction false} WithSpecificityMembers(s: seq<Rule>, k: nat)
    ensures forall x :: x in WithSpecificity(s, k) ==> x in s && Specificity(x) == k
  {
    if s != [] {
      WithSpecificityMembers(s[1..], k);
    }
  }

  /** A bucket no rule of `s` belongs to is empty. */
  lemma {:induction false} WithSpecificityEmpty(s: seq<Rule>, k: nat)
    requires forall i :: 0 <= i < |s| ==> Specificity(s[i]) != k
    ensures WithSpecificity(s, k) == []
  {
    if s != [] {
      WithSpecificityEmpty(s[1..], k);
    }
  }

  /** Splitting a sequence splits each of its buckets the same way. */
  lemma {:induction false} WithSpecificityAppend(a: seq<Rule>, b: seq<Rule>, k: nat)
    ensures WithSpecificity(a + b, k) == WithSpecificity(a, k) + WithSpecificity(b, k)
  {
    if a == [] {
      assert a + b == b;
    } else {
      assert (a + b)[0] == a[0] && (a + b)[1..] == a[1..] + b;
      WithSpecificityAppend(a[1..], b, k);
    }
  }

  /** Dropping the head of a list drops it from the front of its bucket. */
  lemma BucketsOfTail(s: seq<Rule>, k: nat)
    requires s != []
    ensures Specificity(s[0]) == k ==> WithSpecificity(s[1..], k) == WithSpecificity(s, k)[1..]
    ensures Specificity(s[0]) != k ==> WithSpecificity(s[1..], k) == WithSpecificity(s, k)
  {
    var head := if Specificity(s[0]) == k then [s[0]] else [];
    assert WithSpecificity(s, k) == head + WithSpecificity(s[1..], k);
    if head == [] {
      assert head + WithSpecificity(s[1..], k) == WithSpecificity(s[1..], k);
    } else {
      assert (head + WithSpecificity(s[1..], k))[1..] == WithSpecificity(s[1..], k);
    }
  }

  /** The head of a sorted list has the largest clause count of the list. */
  lemma SortedHeadIsMax(s: seq<Rule>)
    requires Sorted(s) && s != []
    ensures forall x :: x in s ==> Specificity(x) <= Specificity(s[0])
  {
  }

  /** The length of the longest prefix of `s` whose rules have at least `k` clauses. */
  function PrefixAtLeast(s: seq<Rule>, k: nat): (n: nat)
    ensures n <= |s|
    ensures forall j :: 0 <= j < n ==> Specificity(s[j]) >= k
    ensures n < |s| ==> Specificity(s[n]) < k
  {
    if s == [] || Specificity(s[0]) < k then 0 else 1 + PrefixAtLeast(s[1..], k)
  }

  /** Putting `r` between a prefix of at-least-as-specific rules and a less specific rest keeps a list sorted. */
  lemma InsertAtKeepsSorted(s: seq<Rule>, n: nat, r: Rule)
    requires Sorted(s) && n <= |s|
    requires forall j :: 0 <= j < n ==> Specificity(s[j]) >= Specificity(r)
    requires forall j :: n <= j < |s| ==> Specificity(s[j]) < Specificity(r)
    ensures Sorted(s[..n] + [r] + s[n..])
  {
    var t := s[..n] + [r] + s[n..];
    forall i, j | 0 <= i < j < |t| ensures Specificity(t[i]) >= Specificity(t[j]) {
      if j < n {
        assert t[i] == s[i] && t[j] == s[j];
      } else if i > n {
        assert t[i] == s[i - 1] && t[j] == s[j - 1];
      } else if i < n {
        assert t[i] == s[i];
        if j > n { assert t[j] == s[j - 1]; }
      } else {
        assert t[j] == s[j - 1];
      }
    }
  }

  /** Putting `r` behind the rules of its own clause count adds it at the end of its bucket. */
  lemma InsertAtBuckets(s: seq<Rule>, n: nat, r: Rule, k: nat)
    requires n <= |s|
    requires forall j :: n <= j < |s| ==> Specificity(s[j]) < Specificity(r)
    ensures WithSpecificity(s[..n] + [r] + s[n..], k) == WithSpecificity(s, k) + (if Specificity(r) == k then [r] else [])
  {
    WithSpecificityAppend(s[..n] + [r], s[n..], k);
    WithSpecificityAppend(s[..n], [r], k);
    assert s == s[..n] + s[n..];
    WithSpecificityAppend(s[..n], s[n..], k);
    assert WithSpecificity([r], k) == (if Specificity(r) == k then [r] else []);
    if Specificity(r) == k {
      WithSpecificityEmpty(s[n..], k);
    }
  }

  /**
   `t` is `s` with `r` placed at position `i`: behind every rule with at
   least as many clauses as `r`, in front of every rule with fewer.
   */
  ghost predicate InsertedAt(s: seq<Rule>, r: Rule, t: seq<Rule>, i: int) {
    && 0 <= i <= |s|
    && t == s[..i] + [r] + s[i..]
    && (forall j :: 0 <= j < i ==> Specificity(s[j]) >= Specificity(r))
    && (forall j :: i <= j < |s| ==> Specificity(s[j]) < Specificity(r))
  }

  /** Everything `Insert` promises, for the position the sorted list dictates. */
  lemma InsertAt(s: seq<Rule>, n: nat, r: Rule)
    requires Sorted(s) && n <= |s|
    requires forall j :: 0 <= j < n ==> Specificity(s[j]) >= Specificity(r)
    requires n < |s| ==> Specificity(s[n]) < Specificity(r)
    ensures Sorted(s[..n] + [r] + s[n..])
    ensures multiset(s[..n] + [r] + s[n..]) == multiset(s) + multiset{r}
    ensures InsertedAt(s, r, s[..n] + [r] + s[n..], n)
    ensures forall k: nat :: WithSpecificity(s[..n] + [r] + s[n..], k)
                             == WithSpecificity(s, k) + (if Specificity(r) == k then [r] else [])
  {
    assert s == s[..n] + s[n..];
    assert forall j :: n <= j < |s| ==> Specificity(s[j]) < Specificity(r);
    InsertAtKeepsSorted(s, n, r);
    forall k: nat
      ensures WithSpecificity(s[..n] + [r] + s[n..], k) == WithSpecificity(s, k) + (if Specificity(r) == k then [r] else [])
    {
      InsertAtBuckets(s, n, r, k);
    }
  }

  /**
   One step of the sort: `r` goes after every rule of the sorted list `s`
   that has at least as many clauses, and before the first that has fewer.
   */
  function Insert(r: Rule, s: seq<Rule>): (t: seq<Rule>)
    requires Sorted(s)
    ensures Sorted(t)
    ensures multiset(t) == multiset(s) + multiset{r}
    ensures exists i :: InsertedAt(s, r, t, i)
    ensures forall k: nat :: WithSpecificity(t, k) == WithSpecificity(s, k) + (if Specificity(r) == k then [r] else [])
  {
    var n := PrefixAtLeast(s, Specificity(r));
    InsertAt(s, n, r);
    s[..n] + [r] + s[n..]
  }

  /**
   `sorted(s, key=len, reverse=True)`: ordered by descending clause count,
   the same rules, and within each clause count the order of `s` (stability).
   */
  function SortBySpecificity(s: seq<Rule>): (t: seq<Rule>)
    ensures Sorted(t)
    ensures multiset(t) == multiset(s)
    ensures forall k: nat :: WithSpecificity(t, k) == WithSpecificity(s, k)
  {
    if s == [] then []
    else
      var n := |s| - 1;
      var t := Insert(s[n], SortBySpecificity(s[..n]));
      assert s == s[..n] + [s[n]];
      LastBucket(s);
      t
  }

  /** The buckets of `s` are those of `s` without its last rule, plus that rule in its own bucket. */
  lemma LastBucket(s: seq<Rule>)
    requires s != []
    ensures forall k: nat :: WithSpecificity(s, k) == WithSpecificity(s[..|s| - 1], k)
                             + (if Specificity(s[|s| - 1]) == k then [s[|s| - 1]] else [])
  {
    var n := |s| - 1;
    assert s == s[..n] + [s[n]];
    forall k: nat
      ensures WithSpecificity(s, k) == WithSpecificity(s[..n], k) + (if Specificity(s[n]) == k then [s[n]] else [])
    {
      WithSpecificityAppend(s[..n], [s[n]], k);
    }
  }

  /**
   A stable descending sort has only one possible outcome: two sorted lists
   with the same buckets are equal. So any stable sort (Python's included)
   agrees with `SortBySpecificity`.
   */
  lemma {:induction false} StableSortUnique(a: seq<Rule>, b: seq<Rule>)
    requires Sorted(a) && Sorted(b)
    requires forall k: nat :: WithSpecificity(a, k) == WithSpecificity(b, k)
    ensures a == b
    decreases |a|
  {
    if a != [] {
      SameHead(a, b);
    } else if b != [] {
      SameHead(b, a);
    }
    if a != [] {
      forall k: nat
        ensures WithSpecificity(a[1..], k) == WithSpecificity(b[1..], k)
      {
        BucketsOfTail(a, k);
        BucketsOfTail(b, k);
      }
      StableSortUnique(a[1..], b[1..]);
      assert a == [a[0]] + a[1..] && b == [b[0]] + b[1..];
    }
  }

  /** Two sorted lists with the same buckets start with the same rule. */
  lemma SameHead(a: seq<Rule>, b: seq<Rule>)
    requires Sorted(a) && Sorted(b) && a != []
    requires forall k: nat :: WithSpecificity(a, k) == WithSpecificity(b, k)
    ensures b != [] && a[0] == b[0]
  {
    var k0 := Specificity(a[0]);
    assert WithSpecificity(b, k0) != [];
    WithSpecificityMembers(b, k0);
    assert Specificity(b[0]) == k0 by {
      var x := WithSpecificity(a, k0)[0];
      assert x in WithSpecificity(b, k0);
      SortedHeadIsMax(b);
      var y := WithSpecificity(b, Specificity(b[0]))[0];
      WithSpecificityMembers(a, Specificity(b[0]));
      assert y in WithSpecificity(a, Specificity(b[0]));
      SortedHeadIsMax(a);
    }
    assert WithSpecificity(a, k0)[0] == a[0];
    assert WithSpecificity(b, k0)[0] == b[0];
  }

  /** Sorting a list that is already in order changes nothing. */
  lemma SortSortedIsIdentity(s: seq<Rule>)
    requires Sorted(s)
    ensures SortBySpecificity(s) == s
  {
    StableSortUnique(SortBySpecificity(s), s);
  }

  /** Appending one rule to a sorted list and sorting inserts that rule. */
  lemma SortSortedAppended(s: seq<Rule>, r: Rule)
    requires Sorted(s)
    ensures SortBySpecificity(s + [r]) == Insert(r, s)
  {
    assert (s + [r])[..|s|] == s && (s + [r])[|s|] == r;
    SortSortedIsIdentity(s);
  }

  /**
   What `add_rule` does to a faucet's list: re-sorting the sorted list of
   the rules added so far with one more rule appended is the same as sorting
   the whole insertion history, and the same as inserting the new rule
   behind every rule with at least as many clauses.
   */
  lemma {:induction false} ResortAppended(h: seq<Rule>, r: Rule)
    ensures SortBySpecificity(SortBySpecificity(h) + [r]) == SortBySpecificity(h + [r])
    ensures SortBySpecificity(h + [r]) == Insert(r, SortBySpecificity(h))
  {
    var s := SortBySpecificity(h);
    assert (s + [r])[..|s|] == s && (s + [r])[|s|] == r;
    assert (h + [r])[..|h|] == h && (h + [r])[|h|] == r;
    SortSortedIsIdentity(s);
  }

  /**
   The rule `h[i]` of the insertion history `h` is the one the router must
   pick for `m`: it matches, every matching rule has at most as many
   clauses, and every matching rule with as many clauses was added later.
   */
  ghost predicate Winner(h: seq<Rule>, i: int, m: Message) {
    && 0 <= i < |h|
    && Matches(h[i], m)
    && forall j :: 0 <= j < |h| && Matches(h[j], m) ==>
         Specificity(h[j]) < Specificity(h[i]) || (Specificity(h[j]) == Specificity(h[i]) && i <= j)
  }

  /** Scanning past a rule that does not match. */
  lemma FirstMatchSkip(head: seq<Rule>, rest: seq<Rule>, m: Message)
    requires forall i :: 0 <= i < |head| ==> !Matches(head[i], m)
    ensures FirstMatch(head + rest, m) == FirstMatch(rest, m)
  {
    if head != [] {
      assert (head + rest)[1..] == head[1..] + rest;
      FirstMatchSkip(head[1..], rest, m);
    } else {
      assert head + rest == rest;
    }
  }

  /** The first match of a list is also the first match of its own bucket. */
  lemma {:induction false} FirstMatchInBucket(s: seq<Rule>, m: Message, x: Rule)
    requires FirstMatch(s, m) == Some(x)
    ensures FirstMatch(WithSpecificity(s, Specificity(x)), m) == Some(x)
  {
    var k := Specificity(x);
    if !Matches(s[0], m) {
      FirstMatchInBucket(s[1..], m, x);
      var head := if Specificity(s[0]) == k then [s[0]] else [];
      assert WithSpecificity(s, k) == head + WithSpecificity(s[1..], k);
      FirstMatchSkip(head, WithSpecificity(s[1..], k), m);
    }
  }

  /** The first match of a bucket of `h` is its earliest matching member in `h`. */
  lemma {:induction false} FirstMatchOfBucketIsEarliest(h: seq<Rule>, k: nat, m: Message, x: Rule)
    requires FirstMatch(WithSpecificity(h, k), m) == Some(x)
    ensures exists i :: 0 <= i < |h| && h[i] == x
                        && forall j :: 0 <= j < |h| && Specificity(h[j]) == k && Matches(h[j], m) ==> i <= j
  {
    BucketsOfTail(h, k);
    if Specificity(h[0]) == k && Matches(h[0], m) {
      assert WithSpecificity(h, k)[0] == h[0];
    } else {
      assert FirstMatch(WithSpecificity(h[1..], k), m) == Some(x);
      FirstMatchOfBucketIsEarliest(h[1..], k, m, x);
      var i' :| 0 <= i' < |h[1..]| && h[1..][i'] == x
                && forall j :: 0 <= j < |h[1..]| && Specificity(h[1..][j]) == k && Matches(h[1..][j], m) ==> i' <= j;
      EarliestInTail(h, k, m, i');
      assert h[i' + 1] == x;
    }
  }

  /** An earliest bucket member of `h[1..]` is one of `h` too, when `h[0]` is not a matching member. */
  lemma EarliestInTail(h: seq<Rule>, k: nat, m: Message, i: nat)
    requires h != [] && !(Specificity(h[0]) == k && Matches(h[0], m))
    requires forall j :: 0 <= j < |h[1..]| && Specificity(h[1..][j]) == k && Matches(h[1..][j], m) ==> i <= j
    ensures forall j :: 0 <= j < |h| && Specificity(h[j]) == k && Matches(h[j], m) ==> i + 1 <= j
  {
    forall j | 0 <= j < |h| && Specificity(h[j]) == k && Matches(h[j], m)
      ensures i + 1 <= j
    {
      assert h[j] == h[1..][j - 1];
    }
  }

  /** Every rule of the history has a position in the sorted list. */
  lemma PositionInSorted(h: seq<Rule>, j: int) returns (t: nat)
    requires 0 <= j < |h|
    ensures t < |SortBySpecificity(h)| && SortBySpecificity(h)[t] == h[j]
  {
    var s := SortBySpecificity(h);
    assert h[j] in multiset(h);
    assert h[j] in multiset(s);
    t :| 0 <= t < |s| && s[t] == h[j];
  }

  /** Sorting neither creates nor hides a match. */
  lemma {:induction false} SortKeepsSomeMatch(h: seq<Rule>, m: Message)
    ensures FirstMatch(SortBySpecificity(h), m).None? <==> forall j :: 0 <= j < |h| ==> !Matches(h[j], m)
  {
    var s := SortBySpecificity(h);
    forall j | 0 <= j < |h| && Matches(h[j], m)
      ensures FirstMatch(s, m).Some?
    {
      var t := PositionInSorted(h, j);
    }
    forall t | 0 <= t < |s| && Matches(s[t], m)
      ensures exists j :: 0 <= j < |h| && Matches(h[j], m)
    {
      assert s[t] in multiset(s);
      assert s[t] in multiset(h);
      var j :| 0 <= j < |h| && h[j] == s[t];
    }
  }

  /** No matching rule of the history has more clauses than the first match of the sorted list. */
  lemma NoMatchBeatsFirst(h: seq<Rule>, m: Message, p: nat, j: int)
    requires p < |SortBySpecificity(h)|
    requires forall q :: 0 <= q < p ==> !Matches(SortBySpecificity(h)[q], m)
    requires 0 <= j < |h| && Matches(h[j], m)
    ensures Specificity(h[j]) <= Specificity(SortBySpecificity(h)[p])
  {
    var s := SortBySpecificity(h);
    var t := PositionInSorted(h, j);
    assert p <= t;
    assert p == t || Specificity(s[p]) >= Specificity(s[t]);
  }

  /** The first match of the sorted list is the winner of the history. */
  lemma {:induction false} FirstMatchOfSortedWins(h: seq<Rule>, m: Message, x: Rule)
    requires FirstMatch(SortBySpecificity(h), m) == Some(x)
    ensures exists i :: Winner(h, i, m) && h[i] == x
  {
    var s := SortBySpecificity(h);
    var k := Specificity(x);
    var p :| 0 <= p < |s| && s[p] == x && forall j :: 0 <= j < p ==> !Matches(s[j], m);
    FirstMatchInBucket(s, m, x);
    FirstMatchOfBucketIsEarliest(h, k, m, x);
    var i :| 0 <= i < |h| && h[i] == x
             && forall j :: 0 <= j < |h| && Specificity(h[j]) == k && Matches(h[j], m) ==> i <= j;
    forall j | 0 <= j < |h| && Matches(h[j], m)
      ensures Specificity(h[j]) <= k
    {
      NoMatchBeatsFirst(h, m, p, j);
    }
    assert Winner(h, i, m);
  }

  /**
   Rule priority: the first rule of the sorted list that matches is the
   winner of the insertion history, more clauses beating fewer whatever the
   order of addition and, at equal clause count, the earlier-added rule
   beating the later; and no rule is found exactly when none matches.
   */
  lemma PriorityOfSortedRules(h: seq<Rule>, m: Message)
    ensures var r := FirstMatch(SortBySpecificity(h), m);
            r.None? <==> forall j :: 0 <= j < |h| ==> !Matches(h[j], m)
    ensures var r := FirstMatch(SortBySpecificity(h), m);
            r.Some? ==> exists i :: Winner(h, i, m) && h[i] == r.value
  {
    SortKeepsSomeMatch(h, m);
    var r := FirstMatch(SortBySpecificity(h), m);
    if r.Some? {
      FirstMatchOfSortedWins(h, m, r.value);
    }
  }
}
