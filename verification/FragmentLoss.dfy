/**
  * One fragment missing from a sequence of fragments: when the sequence check lets it pass, and what the joined bytes
  * are then.
  */
module FragmentLoss {
  import opened Common
  import opened Assembler
  import opened Reassembly

  function Without<T>(s: seq<T>, n: nat): seq<T>
    requires n < |s|
  {
    s[..n] + s[n + 1..]
  }

  /** A fragment beside it carries the same number, so also the same bytes. */
  predicate Repeated(frs: seq<Fragment>, n: nat)
    requires n < |frs|
  {
    (n > 0 && frs[n].sequence == frs[n - 1].sequence) || (n + 1 < |frs| && frs[n + 1].sequence == frs[n].sequence)
  }

  /**
    * What the sequence check lets pass: the loss of the last fragment always, that of the first when the next one
    * starts with a message, and that of any other exactly when it is repeated beside it.
    */
  predicate Unnoticed(frs: seq<Fragment>, n: nat)
    requires n < |frs|
  {
    if n == |frs| - 1 then true
    else if n == 0 then frs[1].firstMessageOffset == 0
    else Repeated(frs, n)
  }

  lemma TwoSteps(a: nat, b: nat, c: nat)
    requires a < SEQUENCE_MODULO && b == (a + 1) % SEQUENCE_MODULO && c == (b + 1) % SEQUENCE_MODULO
    ensures c != a && c != b && b != a && c != (a + 1) % SEQUENCE_MODULO
  {
  }

  /** Where a fragment lies once another one is gone. */
  lemma WithoutAt(frs: seq<Fragment>, n: nat, k: nat)
    requires n < |frs| && k < |frs| - 1
    ensures Without(frs, n)[k] == if k < n then frs[k] else frs[k + 1]
  {
  }

  /** The fragments on either side of the gap follow one another exactly when the missing one is repeated. */
  lemma GapFollows(frs: seq<Fragment>, n: nat)
    requires InSequence(frs) && 0 < n < |frs| - 1
    ensures Follows(frs[n - 1], frs[n + 1]) <==> Repeated(frs, n)
  {
    var p, f, q := frs[n - 1], frs[n], frs[n + 1];
    assert Follows(p, f) && Follows(f, frs[n + 1]);
    if f.sequence != p.sequence && q.sequence != f.sequence {
      TwoSteps(p.sequence, f.sequence, q.sequence);
    }
  }

  /** The check passes the shorter sequence exactly when the loss is one of those. */
  lemma LossUnnoticedExactly(frs: seq<Fragment>, n: nat)
    requires InSequence(frs) && n < |frs|
    ensures InSequence(Without(frs, n)) <==> Unnoticed(frs, n)
  {
    hide Follows, Repeated;
    var rest := Without(frs, n);
    forall k | 0 <= k < |rest|
      ensures rest[k] == if k < n then frs[k] else frs[k + 1]
    {
      WithoutAt(frs, n, k);
    }
    if 0 < n < |frs| - 1 {
      GapFollows(frs, n);
      assert rest[n - 1] == frs[n - 1] && rest[n] == frs[n + 1];
    }
    forall k | 0 < k < |rest| && k != n
      ensures Follows(rest[k - 1], rest[k])
    {
      if k < n {
        assert Follows(frs[k - 1], frs[k]);
      } else {
        assert Follows(frs[k], frs[k + 1]);
      }
    }
  }

  lemma JoinedOne(f: Fragment)
    ensures Joined([f]) == f.data && Joined([]) == []
  {
    JoinedSnoc([], f);
    assert [] + [f] == [f];
  }

  lemma JoinedMore(frs: seq<Fragment>, f: Fragment)
    requires frs != []
    ensures Joined(frs + [f])
         == if f.sequence == frs[|frs| - 1].sequence then Joined(frs) else Joined(frs) + f.data
  {
    hide Joined, NewOnes;
    JoinedSnoc(frs, f);
    assert (frs + [f])[|frs| - 1] == frs[|frs| - 1];
  }

  /** What `rest` keeps of the joined bytes when fragment `n` of `frs` is lost. */
  ghost predicate Keeps(frs: seq<Fragment>, n: nat, rest: seq<Fragment>)
    requires n < |frs|
  {
    && (Repeated(frs, n) ==> Joined(rest) == Joined(frs))
    && (!Repeated(frs, n) && n == 0 ==> Joined(frs) == frs[0].data + Joined(rest))
    && (!Repeated(frs, n) && n == |frs| - 1 ==> Joined(frs) == Joined(rest) + frs[n].data)
  }

  /** A repeated fragment takes nothing with it; an end that is not repeated takes exactly its own bytes. */
  lemma {:induction false} LossKeeps(frs: seq<Fragment>, n: nat)
    requires InSequence(frs) && n < |frs|
    ensures Keeps(frs, n, Without(frs, n))
    decreases |frs|
  {
    hide Joined, NewOnes, InSequence;
    var before, last := frs[..|frs| - 1], frs[|frs| - 1];
    assert before + [last] == frs;
    if |frs| == 1 {
      assert frs == [last] && Without(frs, n) == [];
      JoinedOne(last);
    } else if n == |frs| - 1 {
      assert Without(frs, n) == before;
      JoinedMore(before, last);
    } else if n == |frs| - 2 {
      LossBeforeLast(frs);
    } else {
      PrefixInOrder(frs);
      LossKeeps(before, n);
      var rest := Without(before, n);
      assert Without(frs, n) == rest + [last];
      assert rest[|rest| - 1] == before[|before| - 1];
      JoinedMore(before, last);
      JoinedMore(rest, last);
    }
  }

  lemma PrefixInOrder(frs: seq<Fragment>)
    requires InSequence(frs) && frs != []
    ensures InSequence(frs[..|frs| - 1])
  {
    hide Follows;
    var before := frs[..|frs| - 1];
    forall i | 0 < i < |before|
      ensures Follows(before[i - 1], before[i])
    {
      assert Follows(frs[i - 1], frs[i]);
    }
  }

  lemma LossBeforeLast(frs: seq<Fragment>)
    requires InSequence(frs) && |frs| >= 2
    ensures Keeps(frs, |frs| - 2, Without(frs, |frs| - 2))
  {
    hide Joined, NewOnes;
    var head, f, last := frs[..|frs| - 2], frs[|frs| - 2], frs[|frs| - 1];
    assert frs == head + [f] + [last] && Without(frs, |frs| - 2) == head + [last];
    assert Follows(f, last);
    JoinedMore(head + [f], last);
    assert (head + [f])[|head|] == f;
    if head == [] {
      assert head + [f] == [f] && head + [last] == [last];
      JoinedOne(f);
      JoinedOne(last);
    } else {
      assert Follows(frs[|head| - 1], frs[|head|]);
      JoinedMore(head, f);
      JoinedMore(head, last);
    }
  }
}
