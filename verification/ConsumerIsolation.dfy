/** Requests of one consumer for one payload identifier are answered as if no other
    request had ever been made. */
module ConsumerIsolation {
  import opened Domain
  import opened AtomicContract
  import opened ProcessRules

  /** The operations of a run that `keep` selects, in order. */
  function Kept(ops: seq<Op>, keep: Op -> bool): seq<Op> {
    if ops == [] then []
    else Kept(ops[..|ops| - 1], keep) + if keep(ops[|ops| - 1]) then [ops[|ops| - 1]] else []
  }

  /** The replies given to the operations that `keep` selects, in order. */
  function RepliesTo(ops: seq<Op>, replies: seq<Reply>, keep: Op -> bool): seq<Reply>
    requires |ops| == |replies|
  {
    if ops == [] then []
    else
      var last := |ops| - 1;
      RepliesTo(ops[..last], replies[..last], keep) + if keep(ops[last]) then [replies[last]] else []
  }

  lemma {:induction false} KeysAreIndependent(c: Contract, ops: seq<Op>, key: string, keep: Op -> bool)
    requires forall i :: 0 <= i < |ops| ==> keep(ops[i]) == (c.keyOf(ops[i].call) == key)
    ensures
      var all, own := CellsAfter(c, ops), CellsAfter(c, Kept(ops, keep));
      && (key in all <==> key in own) && (key in all ==> all[key] == own[key])
    ensures RepliesTo(ops, Replies(c, ops), keep) == Replies(c, Kept(ops, keep))
  {
    if ops != [] {
      var last := |ops| - 1;
      var front := ops[..last];
      KeysAreIndependent(c, front, key, keep);
      assert Replies(c, ops)[..last] == Replies(c, front);
      if keep(ops[last]) {
        assert Kept(ops, keep)[..|Kept(front, keep)|] == Kept(front, keep);
      } else {
        assert Kept(ops, keep) == Kept(front, keep);
      }
    }
  }

  /** What is kept of a log in order is in order, and no later. */
  lemma {:induction false} KeptInOrder(ops: seq<Op>, keep: Op -> bool, clock: real)
    requires InOrder(ops) && Until(ops, clock)
    ensures InOrder(Kept(ops, keep)) && Until(Kept(ops, keep), clock)
  {
    if ops != [] {
      var front, last := ops[..|ops| - 1], ops[|ops| - 1];
      KeptInOrder(front, keep, TimeOf(last));
      var kept := Kept(front, keep);
      if keep(last) {
        assert (kept + [last])[..|kept|] == kept;
      } else {
        assert kept + [] == kept;
        KeptInOrder(front, keep, clock) by {
          assert Until(front, TimeOf(last));
        }
      }
    }
  }

  /** The operations on one key are a run by themselves, answered as they were. */
  lemma {:induction false} KeyIsARun(c: Contract, ops: seq<Op>, replies: seq<Reply>, key: string, keep: Op -> bool)
    requires Atomic(c, ops, replies)
    requires forall i :: 0 <= i < |ops| ==> keep(ops[i]) == (c.keyOf(ops[i].call) == key)
    ensures Atomic(c, Kept(ops, keep), RepliesTo(ops, replies, keep))
  {
    if ops != [] {
      var last := |ops| - 1;
      var front, op := ops[..last], ops[last];
      assert replies[..last] == Replies(c, front);
      KeyIsARun(c, front, replies[..last], key, keep);
      if keep(op) {
        KeysAreIndependent(c, front, key, keep);
        KeptInOrder(front, keep, TimeOf(op));
        AtomicExtend(c, Kept(front, keep), RepliesTo(front, replies[..last], keep), op);
      } else {
        assert Kept(ops, keep) == Kept(front, keep);
        assert RepliesTo(ops, replies, keep) == RepliesTo(front, replies[..last], keep);
      }
    }
  }

  function Preimage(call: Call): string { call.consumerId + "\0" + call.payloadId }

  /** No string hashed during the run collides with the one hashed for `own`, and the
      digests have one length. */
  ghost predicate DigestGood(digest: string -> string, ops: seq<Op>, own: Call) {
    forall i :: 0 <= i < |ops| ==>
      && |digest(Preimage(ops[i].call))| == |digest(Preimage(own))|
      && (digest(Preimage(ops[i].call)) == digest(Preimage(own)) ==> Preimage(ops[i].call) == Preimage(own))
  }

  /** The operations of requests for the same consumer and payload identifier. */
  function OfPair(own: Call): Op -> bool {
    (op: Op) => op.call.consumerId == own.consumerId && op.call.payloadId == own.payloadId
  }

  /** The pair is the key. */
  lemma PairIsKey(c: Contract, ttl: real, hash: string -> string, digest: string -> string, ops: seq<Op>, own: Call)
    requires c == Service(ttl, hash, digest) && DigestGood(digest, ops, own)
    ensures forall i :: 0 <= i < |ops| ==> OfPair(own)(ops[i]) == (c.keyOf(ops[i].call) == c.keyOf(own))
  {
    forall i | 0 <= i < |ops|
      ensures OfPair(own)(ops[i]) == (c.keyOf(ops[i].call) == c.keyOf(own))
    {
      KeyInjective(digest, ops[i].call.consumerId, ops[i].call.payloadId, own.consumerId, own.payloadId);
    }
  }

  /** Everything requests for (consumer, payload identifier) are told, in a run shared
      with any other requests, is what they would be told if they ran alone. */
  lemma PairsAreIsolated(ttl: real, hash: string -> string, digest: string -> string, ops: seq<Op>, own: Call)
    requires DigestGood(digest, ops, own)
    ensures
      var c := Service(ttl, hash, digest);
      RepliesTo(ops, Replies(c, ops), OfPair(own)) == Replies(c, Kept(ops, OfPair(own)))
  {
    var c := Service(ttl, hash, digest);
    PairIsKey(c, ttl, hash, digest, ops, own);
    KeysAreIndependent(c, ops, c.keyOf(own), OfPair(own));
  }

  /** And that is a run: nothing it consists of needs the requests left out. */
  lemma PairsRunAlone(ttl: real, hash: string -> string, digest: string -> string, ops: seq<Op>,
                      replies: seq<Reply>, own: Call)
    requires DigestGood(digest, ops, own) && Atomic(Service(ttl, hash, digest), ops, replies)
    ensures Atomic(Service(ttl, hash, digest), Kept(ops, OfPair(own)), RepliesTo(ops, replies, OfPair(own)))
  {
    var c := Service(ttl, hash, digest);
    PairIsKey(c, ttl, hash, digest, ops, own);
    KeyIsARun(c, ops, replies, c.keyOf(own), OfPair(own));
  }
}
