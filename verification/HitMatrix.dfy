/** `bitarea`: for each document of a batch and each query slot, which words of the query have been met. */
module HitMatrix {
  import opened Masks
  import opened TokenStructs
  import opened Queries
  import opened QuerySlots

  /** A hit of a document word on a query token: the documents that contain the one, the buckets of the other. */
  ghost predicate HitBy(docs: seq<nat>, slots: Slots, mask: Mask, upTo: nat, d: nat, s: nat, p: nat)
    requires |slots| == 7 && upTo <= 7
  {
    d + 1 in docs && exists b: nat | b < upTo :: Has(mask, b) && TokenQmidInfo(s + 1, p) in slots[b]
  }

  function One(b: bool): nat {
    if b then 1 else 0
  }

  class BitArea {
    const ndocs: nat
    const size: nat
    const token: array3<bool>
    const count: array2<nat>

    ghost predicate Valid()
      reads this, count
    {
      && token.Length0 == count.Length0 == ndocs && token.Length1 == count.Length1 == size
          && token.Length2 == MAX_QUERY_WORDS
      && forall d: nat, s: nat | d < ndocs && s < size :: count[d, s] <= MAX_QUERY_WORDS
    }

    ghost predicate Marked(d: nat, s: nat, p: nat)
      requires Valid() && d < ndocs && s < size && p < MAX_QUERY_WORDS
      reads this, count, token
    {
      token[d, s, p]
    }

    constructor (ndocs: nat, vault: seq<Slot>)
      requires forall x | 0 <= x < |vault| :: |vault[x].tids| <= MAX_QUERY_WORDS
      ensures Valid() && this.ndocs == ndocs && size == |vault| && fresh(token) && fresh(count)
      ensures forall d: nat, s: nat | d < ndocs && s < size :: count[d, s] == |vault[s].tids|
      ensures forall d: nat, s: nat, p: nat | d < ndocs && s < size && p < MAX_QUERY_WORDS :: !Marked(d, s, p)
    {
      this.ndocs, size := ndocs, |vault|;
      token := new bool[ndocs, |vault|, MAX_QUERY_WORDS]((_, _, _) => false);
      count := new nat[ndocs, |vault|];
      new;
      for d := 0 to ndocs
        invariant forall d': nat, s: nat | d' < d && s < |vault| :: count[d', s] == |vault[s].tids|
        invariant forall d: nat, s: nat, p: nat | d < ndocs && s < size && p < MAX_QUERY_WORDS :: !token[d, s, p]
      {
        for i := 0 to |vault|
          invariant forall d': nat, s: nat | d' < d && s < |vault| :: count[d', s] == |vault[s].tids|
          invariant forall s: nat | s < i :: count[d, s] == |vault[s].tids|
          invariant forall d: nat, s: nat, p: nat | d < ndocs && s < size && p < MAX_QUERY_WORDS :: !token[d, s, p]
        {
          count[d, i] := |vault[i].tids|;
        }
      }
    }

    /** Position `pos` of slot `qmid` is met in all documents of the list. */
    method Set(docs: seq<nat>, qmid: nat, pos: nat)
      requires Valid() && 1 <= qmid <= size && pos < MAX_QUERY_WORDS && forall did <- docs :: 1 <= did <= ndocs
      modifies token
      ensures Valid()
      ensures forall d: nat, s: nat, p: nat | d < ndocs && s < size && p < MAX_QUERY_WORDS ::
                Marked(d, s, p) <==> old(Marked(d, s, p)) || (d + 1 in docs && s + 1 == qmid && p == pos)
    {
      for i := 0 to |docs|
        invariant forall d: nat, s: nat, p: nat | d < ndocs && s < size && p < MAX_QUERY_WORDS ::
                    Marked(d, s, p) <==> old(Marked(d, s, p)) || (d + 1 in docs[..i] && s + 1 == qmid && p == pos)
      {
        assert docs[i] in docs;
        token[docs[i] - 1, qmid - 1, pos] := true;
        assert docs[..i + 1] == docs[..i] + [docs[i]];
      }
      assert docs[..|docs|] == docs;
    }

    /** All slots and positions of one bucket. */
    method SetList(docs: seq<nat>, qlist: seq<TokenQmidInfo>)
      requires Valid() && (forall did <- docs :: 1 <= did <= ndocs)
      requires forall info <- qlist :: 1 <= info.qmid <= size && info.position < MAX_QUERY_WORDS
      modifies token
      ensures Valid()
      ensures forall d: nat, s: nat, p: nat | d < ndocs && s < size && p < MAX_QUERY_WORDS ::
                Marked(d, s, p) <==> old(Marked(d, s, p)) || (d + 1 in docs && TokenQmidInfo(s + 1, p) in qlist)
    {
      for i := 0 to |qlist|
        invariant forall d: nat, s: nat, p: nat | d < ndocs && s < size && p < MAX_QUERY_WORDS ::
                    Marked(d, s, p) <==>
                        old(Marked(d, s, p)) || (d + 1 in docs && TokenQmidInfo(s + 1, p) in qlist[..i])
      {
        assert qlist[i] in qlist;
        Set(docs, qlist[i].qmid, qlist[i].position);
        assert qlist[..i + 1] == qlist[..i] + [qlist[i]];
      }
      assert qlist[..|qlist|] == qlist;
    }

    /** Every bucket whose bit is set in the mask of the match. */
    method SetStauros(docs: seq<nat>, slots: Slots, result: Mask)
      requires Valid() && |slots| == 7 && (forall did <- docs :: 1 <= did <= ndocs)
      requires forall b: nat | b < 7 :: forall info <- slots[b] ::
               1 <= info.qmid <= size && info.position < MAX_QUERY_WORDS
      modifies token
      ensures Valid()
      ensures forall d: nat, s: nat, p: nat | d < ndocs && s < size && p < MAX_QUERY_WORDS ::
                Marked(d, s, p) <==> old(Marked(d, s, p)) || HitBy(docs, slots, result, 7, d, s, p)
    {
      for i := 0 to 7
        invariant forall d: nat, s: nat, p: nat | d < ndocs && s < size && p < MAX_QUERY_WORDS ::
                    Marked(d, s, p) <==> old(Marked(d, s, p)) || HitBy(docs, slots, result, i, d, s, p)
      {
        if Has(result, i) {
          SetList(docs, slots[i]);
        }
      }
    }

    /** As many words met as the query has. */
    predicate CheckQmid(doc: nat, qmid: nat)
      requires Valid() && doc < ndocs && 1 <= qmid <= size
      reads this, count, token
    {
      One(token[doc, qmid - 1, 1]) + One(token[doc, qmid - 1, 0]) + One(token[doc, qmid - 1, 2])
      + One(token[doc, qmid - 1, 3]) + One(token[doc, qmid - 1, 4]) == count[doc, qmid - 1]
    }

    /** When no position is met that the query does not have, the sum tells whether all it has are. */
    lemma CheckMeansAll(d: nat, s: nat)
      requires Valid() && d < ndocs && s < size
      requires forall p: nat | count[d, s] <= p < MAX_QUERY_WORDS :: !Marked(d, s, p)
      ensures CheckQmid(d, s + 1) <==> forall p: nat | p < count[d, s] :: Marked(d, s, p)
    {
      assert Marked(d, s, 0) == token[d, s, 0] && Marked(d, s, 1) == token[d, s, 1]
             && Marked(d, s, 2) == token[d, s, 2];
      assert Marked(d, s, 3) == token[d, s, 3] && Marked(d, s, 4) == token[d, s, 4];
    }
  }
}
