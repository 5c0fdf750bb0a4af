/**
 * Argument attributes of a formatted service message: the mention attribute that makes
 * an argument a tappable link to a peer, and the plain bold attribute.
 * Fonts and colours are left abstract.
 */
module Mentions {
  import opened Wrappers
  import opened Telegram

  datatype Attr = PeerMention(peerId: PeerId) | BoldText

  /**
   * `peerMentionsAttributes`: walks the (argument index, optional peer) pairs in order and
   * records a mention for every pair that has a peer; a later pair for the same index
   * overwrites an earlier one.
   */
  function PeerMentionsAttributes(peerIds: seq<(int, Option<PeerId>)>): (r: map<int, Attr>)
    ensures r.Keys == set k | 0 <= k < |peerIds| && peerIds[k].1.Some? :: peerIds[k].0
    ensures forall i | i in r :: r[i].PeerMention? && LastMentionOf(peerIds, i, r[i].peerId)
  {
    MentionsBefore(peerIds, |peerIds|)
  }

  /** The indices given a peer by one of the first `n` pairs. */
  function KeysBefore(peerIds: seq<(int, Option<PeerId>)>, n: nat): set<int>
    requires n <= |peerIds|
  {
    set k | 0 <= k < n && peerIds[k].1.Some? :: peerIds[k].0
  }

  /** Pair `k` gives argument `i` the peer `p`, and no later pair before `n` gives `i` a peer. */
  ghost predicate LastMentionAt(peerIds: seq<(int, Option<PeerId>)>, n: nat, k: int, i: int, p: PeerId) {
    0 <= k < n <= |peerIds| && peerIds[k] == (i, Some(p)) &&
    forall k' | k < k' < n :: peerIds[k'].0 == i ==> peerIds[k'].1.None?
  }

  /** The walk over the first `n` pairs. */
  function MentionsBefore(peerIds: seq<(int, Option<PeerId>)>, n: nat): (r: map<int, Attr>)
    requires n <= |peerIds|
    ensures r.Keys == KeysBefore(peerIds, n)
    ensures forall i | i in r :: r[i].PeerMention? && MentionedBefore(peerIds, n, i, r[i].peerId)
  {
    if n == 0 then map[]
    else
      var front := MentionsBefore(peerIds, n - 1);
      MentionsStep(peerIds, n, front);
      var (index, peerId) := peerIds[n - 1];
      if peerId.Some? then front[index := PeerMention(peerId.value)] else front
  }

  lemma MentionsStep(peerIds: seq<(int, Option<PeerId>)>, n: nat, front: map<int, Attr>)
    requires 0 < n <= |peerIds|
    requires front.Keys == KeysBefore(peerIds, n - 1)
    requires forall i | i in front :: front[i].PeerMention? && MentionedBefore(peerIds, n - 1, i, front[i].peerId)
    ensures var (index, peerId) := peerIds[n - 1];
      var r := if peerId.Some? then front[index := PeerMention(peerId.value)] else front;
      r.Keys == KeysBefore(peerIds, n) &&
      forall i | i in r :: r[i].PeerMention? && MentionedBefore(peerIds, n, i, r[i].peerId)
  {
    var (index, peerId) := peerIds[n - 1];
    var r := if peerId.Some? then front[index := PeerMention(peerId.value)] else front;
    assert KeysBefore(peerIds, n) == KeysBefore(peerIds, n - 1) + (if peerId.Some? then {index} else {});
    forall i | i in r
      ensures r[i].PeerMention? && MentionedBefore(peerIds, n, i, r[i].peerId)
    {
      if peerId.Some? && i == index {
        assert LastMentionAt(peerIds, n, n - 1, i, r[i].peerId);
      } else {
        var k :| LastMentionAt(peerIds, n - 1, k, i, front[i].peerId);
        assert LastMentionAt(peerIds, n, k, i, r[i].peerId);
      }
    }
  }

  /** Among the first `n` pairs, the last one for argument `i` that has a peer has `p`. */
  ghost predicate MentionedBefore(peerIds: seq<(int, Option<PeerId>)>, n: nat, i: int, p: PeerId) {
    exists k :: LastMentionAt(peerIds, n, k, i, p)
  }

  /** Some pair gives argument `i` the peer `p`, and no later pair for `i` has a peer. */
  ghost predicate LastMentionOf(peerIds: seq<(int, Option<PeerId>)>, i: int, p: PeerId) {
    MentionedBefore(peerIds, |peerIds|, i, p)
  }

  /**
   * With pairwise distinct indices, as at every call site of the formatter, the map is
   * exactly "index of a pair with a peer mentions that peer".
   */
  lemma {:induction false} DistinctIndicesMentions(peerIds: seq<(int, Option<PeerId>)>, k: nat)
    requires forall a, b :: 0 <= a < b < |peerIds| ==> peerIds[a].0 != peerIds[b].0
    requires k < |peerIds|
    ensures peerIds[k].1.Some? ==> PeerMentionsAttributes(peerIds)[peerIds[k].0] == PeerMention(peerIds[k].1.value)
    ensures peerIds[k].1.None? ==> peerIds[k].0 !in PeerMentionsAttributes(peerIds)
  {
    var r := PeerMentionsAttributes(peerIds);
    var i := peerIds[k].0;
    if peerIds[k].1.Some? {
      assert i in r;
      var p := r[i].peerId;
      assert LastMentionOf(peerIds, i, p);
      var k0 :| LastMentionAt(peerIds, |peerIds|, k0, i, p);
      assert k0 == k;
    }
  }
}
