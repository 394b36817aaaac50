/** The chronological timeline of votes: by time, vetoes first on ties, otherwise in the order received. */
module VoteOrder {
  import opened Votes

  // The comparator says a goes strictly before b.
  predicate Before(a: Vote, b: Vote) {
    if a.castedAt != b.castedAt then a.castedAt < b.castedAt else a.ballot.Veto? && !b.ballot.Veto?
  }

  predicate Tied(a: Vote, b: Vote) {
    a.castedAt == b.castedAt && (a.ballot.Veto? <==> b.ballot.Veto?)
  }

  // The comparator is a strict weak order, so sorting with it is meaningful, and ties are its equivalence.
  lemma BeforeIsStrictWeakOrder(a: Vote, b: Vote, c: Vote)
    ensures !Before(a, a)
    ensures Before(a, b) && Before(b, c) ==> Before(a, c)
    ensures !Before(a, b) && !Before(b, c) ==> !Before(a, c)
    ensures !Before(a, b) && !Before(b, a) <==> Tied(a, b)
  {
  }

  predicate Sorted(s: seq<Vote>) {
    forall i, j | 0 <= i < j < |s| :: !Before(s[j], s[i])
  }

  // The votes of s tied with v, in the order they have in s.
  function TiedWith(s: seq<Vote>, v: Vote): seq<Vote> {
    if s == [] then [] else (if Tied(s[0], v) then [s[0]] else []) + TiedWith(s[1..], v)
  }

  ghost predicate SameTies(t: seq<Vote>, s: seq<Vote>) {
    forall v :: TiedWith(t, v) == TiedWith(s, v)
  }

  // What a stable sort of votes may return.
  ghost predicate StableSortOf(t: seq<Vote>, s: seq<Vote>) {
    Sorted(t) && multiset(t) == multiset(s) && SameTies(t, s)
  }

  function Insert(v: Vote, s: seq<Vote>): seq<Vote> {
    if s == [] || !Before(s[0], v) then [v] + s else [s[0]] + Insert(v, s[1..])
  }

  function Timeline(votes: seq<Vote>): seq<Vote> {
    if votes == [] then [] else Insert(votes[0], Timeline(votes[1..]))
  }

  lemma {:induction false} InsertContents(v: Vote, s: seq<Vote>)
    ensures multiset(Insert(v, s)) == multiset(s) + multiset{v}
  {
    if s != [] && Before(s[0], v) {
      InsertContents(v, s[1..]);
      assert s == [s[0]] + s[1..];
    }
  }

  lemma {:induction false} InsertSorted(v: Vote, s: seq<Vote>)
    requires Sorted(s)
    ensures Sorted(Insert(v, s))
  {
    if s == [] {
    } else if !Before(s[0], v) {
      forall k | 0 <= k < |s| ensures !Before(s[k], v) {
        BeforeIsStrictWeakOrder(s[k], s[0], v);
      }
    } else {
      InsertSorted(v, s[1..]);
      InsertContents(v, s[1..]);
      var rest := Insert(v, s[1..]);
      forall k | 0 <= k < |rest| ensures !Before(rest[k], s[0]) {
        assert rest[k] in multiset(rest);
        if rest[k] != v {
          assert rest[k] in s[1..];
        }
      }
    }
  }

  lemma {:induction false} InsertStable(v: Vote, s: seq<Vote>, x: Vote)
    ensures TiedWith(Insert(v, s), x) == TiedWith([v] + s, x)
  {
    assert ([v] + s)[1..] == s;
    if s != [] && Before(s[0], v) {
      var rest := Insert(v, s[1..]);
      InsertStable(v, s[1..], x);
      assert ([v] + s[1..])[1..] == s[1..] && ([s[0]] + rest)[1..] == rest;
      assert !(Tied(v, x) && Tied(s[0], x));
    }
  }

  lemma {:induction false} TimelineIsStableSort(votes: seq<Vote>)
    ensures StableSortOf(Timeline(votes), votes)
  {
    if votes != [] {
      TimelineIsStableSort(votes[1..]);
      InsertContents(votes[0], Timeline(votes[1..]));
      InsertSorted(votes[0], Timeline(votes[1..]));
      assert votes == [votes[0]] + votes[1..];
      forall x ensures TiedWith(Timeline(votes), x) == TiedWith(votes, x) {
        var rest := Timeline(votes[1..]);
        InsertStable(votes[0], rest, x);
        assert ([votes[0]] + rest)[1..] == rest;
        assert TiedWith(rest, x) == TiedWith(votes[1..], x);
      }
    }
  }

  // Stability and sortedness leave no choice: whatever sorting algorithm is used, the timeline is the same.
  lemma StableSortUnique(t: seq<Vote>, u: seq<Vote>, s: seq<Vote>)
    requires StableSortOf(t, s) && StableSortOf(u, s)
    ensures t == u
  {
    SameTiesSameSequence(t, u);
  }

  lemma {:induction false} SameTiesSameSequence(t: seq<Vote>, u: seq<Vote>)
    requires Sorted(t) && Sorted(u) && multiset(t) == multiset(u) && SameTies(t, u)
    ensures t == u
  {
    if t == [] || u == [] {
      assert |multiset(t)| == |multiset(u)|;
    } else {
      SameHead(t, u);
      SameTail(t, u);
      SameTiesSameSequence(t[1..], u[1..]);
      assert t == [t[0]] + t[1..] && u == [u[0]] + u[1..];
    }
  }

  lemma SameTail(t: seq<Vote>, u: seq<Vote>)
    requires t != [] && u != [] && t[0] == u[0] && multiset(t) == multiset(u) && SameTies(t, u)
    ensures multiset(t[1..]) == multiset(u[1..]) && SameTies(t[1..], u[1..])
  {
    assert t == [t[0]] + t[1..] && u == [u[0]] + u[1..];
    assert multiset(t[1..]) == multiset(t) - multiset{t[0]} == multiset(u[1..]);
    forall x ensures TiedWith(t[1..], x) == TiedWith(u[1..], x) {
      SameTiesTail(t, u, x);
    }
  }

  lemma SameHead(t: seq<Vote>, u: seq<Vote>)
    requires t != [] && u != [] && Sorted(t) && Sorted(u) && multiset(t) == multiset(u) && SameTies(t, u)
    ensures t[0] == u[0]
  {
    assert t[0] in multiset(u) && u[0] in multiset(t);
    HeadIsLeast(t, u[0]);
    HeadIsLeast(u, t[0]);
    assert TiedWith(t, t[0]) == TiedWith(u, t[0]);
    assert TiedWith(t, t[0])[0] == t[0] && TiedWith(u, t[0])[0] == u[0];
  }

  lemma SameTiesTail(t: seq<Vote>, u: seq<Vote>, x: Vote)
    requires t != [] && u != [] && t[0] == u[0] && TiedWith(t, x) == TiedWith(u, x)
    ensures TiedWith(t[1..], x) == TiedWith(u[1..], x)
  {
    var mine := if Tied(t[0], x) then [t[0]] else [];
    assert TiedWith(t, x) == mine + TiedWith(t[1..], x) && TiedWith(u, x) == mine + TiedWith(u[1..], x);
    assert TiedWith(t, x)[|mine|..] == TiedWith(t[1..], x) && TiedWith(u, x)[|mine|..] == TiedWith(u[1..], x);
  }

  lemma HeadIsLeast(s: seq<Vote>, v: Vote)
    requires Sorted(s) && v in multiset(s)
    ensures !Before(v, s[0])
  {
    var i :| 0 <= i < |s| && s[i] == v;
  }

  lemma {:induction false} TiedWithAppend(a: seq<Vote>, b: seq<Vote>, v: Vote)
    ensures TiedWith(a + b, v) == TiedWith(a, v) + TiedWith(b, v)
  {
    hide Tied;
    if a == [] {
      assert a + b == b;
    } else {
      TiedWithAppend(a[1..], b, v);
      assert (a + b)[1..] == a[1..] + b;
    }
  }

  // Votes already in timeline order stay as they are.
  lemma TimelineOfSorted(votes: seq<Vote>)
    requires Sorted(votes)
    ensures Timeline(votes) == votes
  {
    TimelineIsStableSort(votes);
    StableSortUnique(Timeline(votes), votes, votes);
  }

  // Votes cast strictly later only ever extend the timeline.
  lemma TimelineOfLater(votes: seq<Vote>, later: seq<Vote>)
    requires forall v, w | v in votes && w in later :: v.castedAt < w.castedAt
    ensures Timeline(votes + later) == Timeline(votes) + Timeline(later)
  {
    var a, b := Timeline(votes), Timeline(later);
    TimelineIsStableSort(votes);
    TimelineIsStableSort(later);
    TimelineIsStableSort(votes + later);
    forall i, j | 0 <= i < j < |a + b| ensures !Before((a + b)[j], (a + b)[i]) {
      if i < |a| <= j {
        assert a[i] in multiset(a) && b[j - |a|] in multiset(b);
        assert a[i] in votes && b[j - |a|] in later;
      }
    }
    forall v ensures TiedWith(a + b, v) == TiedWith(votes + later, v) {
      TiedWithAppend(a, b, v);
      TiedWithAppend(votes, later, v);
    }
    StableSortUnique(Timeline(votes + later), a + b, votes + later);
  }
}
