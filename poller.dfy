/** One pass of the `while True` loop in `main` of mail.py: list the alert
    messages, skip those already seen, fetch and extract the new ones, and
    remember every id inspected. The seen-set lives across passes in `main`;
    here it comes in and goes out. The mail service is a parameter. */
module Poller {
  import opened Wrappers
  import opened TransactionExtractor
  import opened EmailBody

  type MessageId = string

  /** What a pass needs from outside: the payload `messages().get(id)`
      returns for each id (`{}` when it has none), and the two text
      conversions that get_email_body calls. */
  datatype Services = Services(payloadOf: MessageId -> Payload, decode: string -> string, htmlText: string -> string)

  /** Fetching message `id` and running the extractor on its body. */
  function Inspect(env: Services, id: MessageId): Option<Transaction> {
    ExtractTransactionInfo(GetEmailBody(env.payloadOf(id), env.decode, env.htmlText))
  }

  function Elems(ids: seq<MessageId>): set<MessageId> {
    set x | x in ids
  }

  /** The ids a pass over `ids` fetches when `seen` holds the ids seen so
      far: each id not yet seen, the first time it is listed. */
  function NewIds(ids: seq<MessageId>, seen: set<MessageId>): seq<MessageId>
    decreases |ids|
  {
    if ids == [] then []
    else if ids[0] in seen then NewIds(ids[1..], seen)
    else [ids[0]] + NewIds(ids[1..], seen + {ids[0]})
  }

  /** Inspect, as a function value. */
  function Inspector(env: Services): MessageId -> Option<Transaction> {
    id => Inspect(env, id)
  }

  /** The transactions reported for the fetched ids, in fetch order, when
      `inspect` says what each message yields. */
  function Reported(inspect: MessageId -> Option<Transaction>, fetched: seq<MessageId>): seq<Transaction>
    decreases |fetched|
  {
    if fetched == [] then []
    else
      var last := fetched[|fetched| - 1];
      var earlier := Reported(inspect, fetched[..|fetched| - 1]);
      match inspect(last)
      case Some(t) => earlier + [t]
      case None => earlier
  }

  /** One pass. `listing` is the ids of `messages().list(...)` in the
      order returned; `fetched` is the sequence of `messages().get` calls
      made and `found` the transactions printed. */
  method Tick(seen0: set<MessageId>, listing: seq<MessageId>, env: Services)
    returns (seen: set<MessageId>, newFound: bool, fetched: seq<MessageId>, found: seq<Transaction>)
    ensures seen == seen0 + Elems(listing)
    ensures fetched == NewIds(listing, seen0)
    ensures found == Reported(Inspector(env), fetched)
    ensures newFound <==> exists p :: 0 <= p < |fetched| && Inspect(env, fetched[p]).Some?
    ensures newFound <==> found != []
  {
    seen, newFound, fetched, found := seen0, false, [], [];
    for n := 0 to |listing|
      invariant seen == seen0 + Elems(listing[..n])
      invariant fetched + NewIds(listing[n..], seen) == NewIds(listing, seen0)
      invariant found == Reported(Inspector(env), fetched)
      invariant newFound <==> found != []
    {
      var id := listing[n];
      TickStep(seen0, listing, n, seen, fetched);
      if id in seen {
        continue;
      }
      var payload := env.payloadOf(id);
      var body := GetEmailBody(payload, env.decode, env.htmlText);
      var txn := ExtractTransactionInfo(body);
      assert Inspector(env)(id) == txn;
      ReportedStep(Inspector(env), fetched, id);
      fetched := fetched + [id];
      if txn.Some? {
        found := found + [txn.value];
        newFound := true;
      }
      seen := seen + {id};
    }
    assert listing[|listing|..] == [] && listing[..|listing|] == listing;
    ReportedNonEmpty(Inspector(env), fetched);
  }

  /** An id is fetched exactly when it is listed and was not seen before. */
  lemma {:induction false} NewIdsMembers(ids: seq<MessageId>, seen: set<MessageId>, x: MessageId)
    ensures x in NewIds(ids, seen) <==> x in ids && x !in seen
    decreases |ids|
  {
    if ids != [] {
      assert ids == [ids[0]] + ids[1..];
      if ids[0] in seen {
        NewIdsMembers(ids[1..], seen, x);
      } else {
        NewIdsMembers(ids[1..], seen + {ids[0]}, x);
      }
    }
  }

  /** No id is fetched twice in one pass, even when it is listed twice. */
  lemma {:induction false} NewIdsNoDuplicates(ids: seq<MessageId>, seen: set<MessageId>)
    ensures var r := NewIds(ids, seen); forall p, q :: 0 <= p < q < |r| ==> r[p] != r[q]
    decreases |ids|
  {
    if ids != [] {
      var r := NewIds(ids, seen);
      if ids[0] in seen {
        NewIdsNoDuplicates(ids[1..], seen);
        assert r == NewIds(ids[1..], seen);
        assert forall p, q :: 0 <= p < q < |r| ==> r[p] != r[q];
      } else {
        var rest := NewIds(ids[1..], seen + {ids[0]});
        NewIdsNoDuplicates(ids[1..], seen + {ids[0]});
        NewIdsMembers(ids[1..], seen + {ids[0]}, ids[0]);
        assert r == [ids[0]] + rest;
        forall p, q | 0 <= p < q < |r| ensures r[p] != r[q] {
          assert r[q] == rest[q - 1];
          if p > 0 {
            assert r[p] == rest[p - 1];
          }
        }
      }
    }
  }

  /** A pass makes one fetch per distinct listed id that was not seen. */
  lemma {:induction false} NewIdsCount(ids: seq<MessageId>, seen: set<MessageId>)
    ensures |NewIds(ids, seen)| == |Elems(ids) - seen|
    decreases |ids|
  {
    if ids == [] {
      assert Elems(ids) - seen == {};
    } else {
      var x := ids[0];
      assert Elems(ids) == {x} + Elems(ids[1..]) by {
        assert ids == [x] + ids[1..];
      }
      if x in seen {
        assert Elems(ids) - seen == Elems(ids[1..]) - seen;
        NewIdsCount(ids[1..], seen);
      } else {
        assert Elems(ids) - seen == {x} + (Elems(ids[1..]) - (seen + {x}));
        NewIdsCount(ids[1..], seen + {x});
      }
    }
  }

  /** The position where `x` is first listed, or `|ids|` when it is not listed. */
  function FirstIndex(ids: seq<MessageId>, x: MessageId): (p: nat)
    ensures p <= |ids| && x !in ids[..p]
    ensures p < |ids| <==> x in ids
    ensures p < |ids| ==> ids[p] == x
  {
    if ids == [] then 0
    else if ids[0] == x then 0
    else
      var p := 1 + FirstIndex(ids[1..], x);
      assert ids[..p] == [ids[0]] + ids[1..][..p - 1];
      assert ids == [ids[0]] + ids[1..];
      p
  }

  /** `r` lists ids in the order of their first listing in `ids`. */
  ghost predicate InListedOrder(ids: seq<MessageId>, r: seq<MessageId>) {
    forall p, q :: 0 <= p < q < |r| ==> FirstIndex(ids, r[p]) < FirstIndex(ids, r[q])
  }

  /** Ids are fetched in the order in which they are first listed. */
  lemma {:induction false} NewIdsInListedOrder(ids: seq<MessageId>, seen: set<MessageId>)
    ensures InListedOrder(ids, NewIds(ids, seen))
    decreases |ids|
  {
    if ids != [] {
      var x := ids[0];
      var r := NewIds(ids, seen);
      if x in seen {
        var rest := NewIds(ids[1..], seen);
        NewIdsInListedOrder(ids[1..], seen);
        assert r == rest;
        forall p, q | 0 <= p < q < |r| ensures FirstIndex(ids, r[p]) < FirstIndex(ids, r[q]) {
          NewIdsMembers(ids[1..], seen, r[p]);
          NewIdsMembers(ids[1..], seen, r[q]);
          assert FirstIndex(ids[1..], rest[p]) < FirstIndex(ids[1..], rest[q]);
        }
      } else {
        var rest := NewIds(ids[1..], seen + {x});
        NewIdsInListedOrder(ids[1..], seen + {x});
        assert r == [x] + rest;
        forall p, q | 0 <= p < q < |r| ensures FirstIndex(ids, r[p]) < FirstIndex(ids, r[q]) {
          assert r[q] == rest[q - 1];
          NewIdsMembers(ids[1..], seen + {x}, r[q]);
          if p > 0 {
            assert r[p] == rest[p - 1];
            NewIdsMembers(ids[1..], seen + {x}, r[p]);
            assert FirstIndex(ids[1..], rest[p - 1]) < FirstIndex(ids[1..], rest[q - 1]);
          }
        }
      }
    }
  }

  /** Once every listed id is seen, a pass over the same listing fetches nothing. */
  lemma {:induction false} NothingNewOnceSeen(ids: seq<MessageId>, seen: set<MessageId>)
    requires Elems(ids) <= seen
    ensures NewIds(ids, seen) == []
    decreases |ids|
  {
    if ids != [] {
      assert ids[0] in Elems(ids);
      assert Elems(ids[1..]) <= Elems(ids);
      NothingNewOnceSeen(ids[1..], seen);
    }
  }

  /** Across two passes, no id is fetched in both: the second pass starts
      from the seen-set the first one leaves. */
  lemma PassesFetchDisjoint(seen0: set<MessageId>, first: seq<MessageId>, second: seq<MessageId>, x: MessageId)
    ensures !(x in NewIds(first, seen0) && x in NewIds(second, seen0 + Elems(first)))
  {
    NewIdsMembers(first, seen0, x);
    NewIdsMembers(second, seen0 + Elems(first), x);
  }

  /** A transaction is reported exactly when one of the fetched messages yields it. */
  lemma {:induction false} ReportedMembers(inspect: MessageId -> Option<Transaction>, fetched: seq<MessageId>, t: Transaction)
    ensures t in Reported(inspect, fetched) <==> exists p :: 0 <= p < |fetched| && inspect(fetched[p]) == Some(t)
    decreases |fetched|
  {
    if fetched != [] {
      var init := fetched[..|fetched| - 1];
      ReportedMembers(inspect, init, t);
      assert forall p :: 0 <= p < |init| ==> init[p] == fetched[p];
    }
  }

  /** Something is reported exactly when some fetched message yields a transaction. */
  lemma {:induction false} ReportedNonEmpty(inspect: MessageId -> Option<Transaction>, fetched: seq<MessageId>)
    ensures Reported(inspect, fetched) != [] <==> exists p :: 0 <= p < |fetched| && inspect(fetched[p]).Some?
    decreases |fetched|
  {
    if fetched != [] {
      var init := fetched[..|fetched| - 1];
      ReportedNonEmpty(inspect, init);
      assert forall p :: 0 <= p < |init| ==> init[p] == fetched[p];
    }
  }

  /** Two alerts listed, the first a credit and the second not: both are
      fetched, one transaction is reported, both ids are remembered, and the
      next pass over the same listing fetches nothing. */
  lemma TwoAlerts(inspect: MessageId -> Option<Transaction>, t: Transaction)
    requires inspect("m1") == Some(t) && inspect("m2") == None
    ensures var listing := ["m1", "m2"];
      && NewIds(listing, {}) == listing
      && Reported(inspect, listing) == [t]
      && {} + Elems(listing) == {"m1", "m2"}
      && NewIds(listing, {"m1", "m2"}) == []
  {
    var listing := ["m1", "m2"];
    assert listing[1..] == ["m2"] && listing[1..][1..] == [];
    assert listing[..1] == ["m1"] && listing[..1][..0] == [];
    assert "m1" != "m2" by { assert "m1"[1] != "m2"[1]; }
    assert Elems(listing) == {"m1", "m2"};
  }

  /** Running a pass again with the same listing, right after a pass, fetches
      nothing, reports nothing, and leaves the seen-set as it is. */
  lemma RerunIsNoOp(seen0: set<MessageId>, listing: seq<MessageId>, env: Services)
    ensures var seen1 := seen0 + Elems(listing);
      && NewIds(listing, seen1) == []
      && Reported(Inspector(env), NewIds(listing, seen1)) == []
      && seen1 + Elems(listing) == seen1
  {
    NothingNewOnceSeen(listing, seen0 + Elems(listing));
  }

  /** How one listed id moves the loop invariants of Tick on. */
  lemma TickStep(seen0: set<MessageId>, listing: seq<MessageId>, n: nat, seen: set<MessageId>, fetched: seq<MessageId>)
    requires n < |listing|
    requires seen == seen0 + Elems(listing[..n])
    requires fetched + NewIds(listing[n..], seen) == NewIds(listing, seen0)
    ensures seen + {listing[n]} == seen0 + Elems(listing[..n + 1])
    ensures listing[n] in seen ==> fetched + NewIds(listing[n + 1..], seen) == NewIds(listing, seen0)
    ensures listing[n] !in seen ==>
      (fetched + [listing[n]]) + NewIds(listing[n + 1..], seen + {listing[n]}) == NewIds(listing, seen0)
  {
    NewIdsStep(listing, n, seen);
    ElemsStep(listing, n);
    AppendAssoc(fetched, listing[n], NewIds(listing[n + 1..], seen + {listing[n]}));
  }

  /** Fetching one more id reports what that message yields, after what was reported before. */
  lemma ReportedStep(inspect: MessageId -> Option<Transaction>, fetched: seq<MessageId>, id: MessageId)
    ensures Reported(inspect, fetched + [id])
         == if inspect(id).Some? then Reported(inspect, fetched) + [inspect(id).value] else Reported(inspect, fetched)
  {
    assert (fetched + [id])[..|fetched|] == fetched;
  }

  lemma NewIdsStep(listing: seq<MessageId>, n: nat, seen: set<MessageId>)
    requires n < |listing|
    ensures NewIds(listing[n..], seen)
         == if listing[n] in seen then NewIds(listing[n + 1..], seen)
            else [listing[n]] + NewIds(listing[n + 1..], seen + {listing[n]})
  {
    assert listing[n..][0] == listing[n] && listing[n..][1..] == listing[n + 1..];
  }

  lemma ElemsStep(listing: seq<MessageId>, n: nat)
    requires n < |listing|
    ensures Elems(listing[..n + 1]) == Elems(listing[..n]) + {listing[n]}
  {
    assert listing[..n + 1] == listing[..n] + [listing[n]];
  }

  lemma AppendAssoc(a: seq<MessageId>, x: MessageId, b: seq<MessageId>)
    ensures (a + [x]) + b == a + ([x] + b)
  {
  }
}
