/** One stored word: the query slots that ask for it, bucket by bucket, and the documents that contain it. */
module TokenStructs {
  import opened Words
  import opened MatchPrune

  datatype MatchType = ExactMatch | HammingDist | EditDist

  /** A query slot and the position of the word in its query. */
  datatype TokenQmidInfo = TokenQmidInfo(qmid: nat, position: nat)

  datatype ErrorCode = Ok | NotFound | FreshToken | TokenUp | TokenExistsInBatch | OutOfRange

  /** What the interface admits: distance 0 for exact matching, and 0 to 3 for the others. */
  predicate IsRequest(mt: MatchType, dist: nat) {
    dist <= 3 && (mt.ExactMatch? ==> dist == 0)
  }

  /** Requests that are filed anywhere; Hamming and edit requests at distance 0 are not. */
  predicate IsFiled(mt: MatchType, dist: nat) {
    mt.ExactMatch? || dist >= 1
  }

  /**
   * The bucket of a request that is filed: 0 exact, 1 to 3 Hamming, 4 to 6 edit. One that is not filed is looked
   * for in the bucket of another kind when it is taken back.
   */
  function BucketOf(mt: MatchType, dist: nat): (b: nat)
    requires IsRequest(mt, dist)
    ensures b < 7
  {
    match mt
    case ExactMatch => 0
    case HammingDist => dist
    case EditDist => 3 + dist
  }

  /** The largest edit distance a request of bucket `b` can be met at. */
  function Tier(b: nat): nat
    requires b < 7
  {
    if b <= 3 then b else b - 3
  }

  function RequestBit(b: nat): bv8
    requires b < 7
  {
    if b == 0 then 0x01
    else if b == 1 then 0x02
    else if b == 2 then 0x04
    else if b == 3 then 0x08
    else if b == 4 then 0x10
    else if b == 5 then 0x20
    else 0x40
  }

  /** The bits are numbered as the buckets are. */
  lemma RequestBits(b: nat)
    requires b < 7
    ensures RequestBit(b) == 1 << b
  {
    assert b == 0 || b == 1 || b == 2 || b == 3 || b == 4 || b == 5 || b == 6;
  }

  predicate Requested(requests: bv8, b: nat)
    requires b < 7
  {
    requests & RequestBit(b) != 0
  }

  lemma SetBit(requests: bv8, b: nat, b': nat)
    requires b < 7 && b' < 7
    ensures Requested(requests | RequestBit(b), b') <==> b == b' || Requested(requests, b')
  {
  }

  lemma ClearBit(requests: bv8, b: nat, b': nat)
    requires b < 7 && b' < 7
    ensures Requested(requests & (0xFF ^ RequestBit(b)), b') <==> b != b' && Requested(requests, b')
  {
  }

  lemma TierMasks(requests: bv8)
    ensures requests & 0x48 != 0 <==> Requested(requests, 3) || Requested(requests, 6)
    ensures requests & 0x24 != 0 <==> Requested(requests, 2) || Requested(requests, 5)
    ensures requests & 0x12 != 0 <==> Requested(requests, 1) || Requested(requests, 4)
  {
  }

  /** The list a token with these requests is pushed on: `qbrandnew3`, `2`, `1` or `0`. */
  function TierOfRequests(requests: bv8): nat {
    if requests > 15 then
      if requests > 63 then 3 else if requests > 31 then 2 else 1
    else
      if requests > 7 then 3 else if requests > 3 then 2 else if requests > 1 then 1 else 0
  }

  type Slots = seq<seq<TokenQmidInfo>>

  const NO_SLOTS: Slots := [[], [], [], [], [], [], []]

  /** The request bits tell which buckets are in use. */
  ghost predicate BitsAgree(requests: bv8, slots: Slots) {
    && |slots| == 7 && requests & 0x80 == 0
    && forall b: nat | b < 7 :: Requested(requests, b) <==> slots[b] != []
  }

  ghost predicate TiersWithin(slots: Slots, highest: nat)
    requires |slots| == 7
  {
    forall b: nat | b < 7 :: slots[b] != [] ==> Tier(b) <= highest
  }

  function Higher(highest: nat, b: nat): nat
    requires b < 7
  {
    Raised(highest, Tier(b))
  }

  /** The distance up to which a request needs its word compared. */
  function RequestTier(mt: MatchType, dist: nat): nat
    requires IsRequest(mt, dist)
  {
    if IsFiled(mt, dist) then Tier(BucketOf(mt, dist)) else 0
  }

  /** For a request of any type that is its distance. */
  lemma TierIsDistance(mt: MatchType, dist: nat)
    requires IsRequest(mt, dist)
    ensures RequestTier(mt, dist) == dist
  {
  }

  /** The buckets after a request came in. */
  function Filed(slots: Slots, mt: MatchType, dist: nat, info: TokenQmidInfo): (slots': Slots)
    requires |slots| == 7 && IsRequest(mt, dist)
    ensures |slots'| == 7
  {
    if IsFiled(mt, dist) then slots[BucketOf(mt, dist) := slots[BucketOf(mt, dist)] + [info]] else slots
  }

  function Raised(highest: nat, tier: nat): nat {
    if tier > highest then tier else highest
  }

  lemma AfterInsert(requests: bv8, slots: Slots, highest: nat, b: nat, info: TokenQmidInfo)
    requires BitsAgree(requests, slots) && TiersWithin(slots, highest) && b < 7
    ensures BitsAgree(requests | RequestBit(b), slots[b := slots[b] + [info]])
    ensures TiersWithin(slots[b := slots[b] + [info]], Higher(highest, b))
  {
    var requests', slots' := requests | RequestBit(b), slots[b := slots[b] + [info]];
    forall b': nat | b' < 7
      ensures Requested(requests', b') <==> slots'[b'] != []
    {
      SetBit(requests, b, b');
    }
  }

  lemma AfterRemove(requests: bv8, slots: Slots, highest: nat, b: nat, list: seq<TokenQmidInfo>)
    requires BitsAgree(requests, slots) && TiersWithin(slots, highest) && b < 7 && slots[b] != []
    ensures BitsAgree(if list == [] then requests & (0xFF ^ RequestBit(b)) else requests, slots[b := list])
    ensures TiersWithin(slots[b := list], highest)
  {
    if list == [] {
      var requests', slots' := requests & (0xFF ^ RequestBit(b)), slots[b := list];
      forall b': nat | b' < 7
        ensures Requested(requests', b') <==> slots'[b'] != []
      {
        ClearBit(requests, b, b');
      }
    }
  }

  /** The three tests on the request bits notice exactly a request of bucket `b` above the highest so far. */
  lemma RaiseTests(requests: bv8, slots: Slots, highest: nat, b: nat)
    requires BitsAgree(requests, slots) && b < 7 && slots[b] != [] && TiersWithin(slots, Higher(highest, b))
    ensures requests & 0x48 != 0 && highest < 3 <==> Tier(b) == 3 && highest < 3
    ensures Tier(b) <= 2 || highest >= 3 ==> (requests & 0x24 != 0 && highest < 2 <==> Tier(b) == 2 && highest < 2)
    ensures Tier(b) <= 1 || highest >= 2 ==> (requests & 0x12 != 0 && highest < 1 <==> Tier(b) == 1 && highest < 1)
  {
    TierMasks(requests);
    assert Requested(requests, b);
  }

  /** Without a new request none of the three tests fires. */
  lemma QuietTests(requests: bv8, slots: Slots, highest: nat)
    requires BitsAgree(requests, slots) && TiersWithin(slots, highest)
    ensures requests & 0x48 == 0 || highest >= 3
    ensures requests & 0x24 == 0 || highest >= 2
    ensures requests & 0x12 == 0 || highest >= 1
  {
    TierMasks(requests);
  }

  lemma BitsWidth(requests: bv8, slots: Slots)
    requires BitsAgree(requests, slots)
    ensures |slots| == 7
  {
  }

  lemma NoRequests(requests: bv8, slots: Slots)
    requires BitsAgree(requests, slots)
    ensures requests == 0 <==> forall b: nat | b < 7 :: slots[b] == []
    ensures requests == 0 ==> TiersWithin(slots, 0)
  {
    if forall b: nat | b < 7 :: slots[b] == [] {
      assert !Requested(requests, 0) && !Requested(requests, 1) && !Requested(requests, 2) && !Requested(requests, 3);
      assert !Requested(requests, 4) && !Requested(requests, 5) && !Requested(requests, 6);
    }
    if requests == 0 {
      forall b: nat | b < 7 ensures !Requested(requests, b) {
      }
    }
  }

  /** A token with a single request goes on the list of that request's tier. */
  lemma SingleRequestTier(requests: bv8, slots: Slots, b: nat)
    requires BitsAgree(requests, slots) && b < 7
    requires forall b': nat | b' < 7 :: slots[b'] != [] <==> b' == b
    ensures TierOfRequests(requests) == Tier(b)
  {
    forall b': nat | b' < 7
      ensures Requested(requests, b') <==> b' == b
    {
    }
    SingleBit(requests, b);
  }

  lemma SingleBit(requests: bv8, b: nat)
    requires requests & 0x80 == 0 && b < 7
    requires forall b': nat | b' < 7 :: Requested(requests, b') <==> b' == b
    ensures TierOfRequests(requests) == Tier(b)
  {
    assert Requested(requests, 0) <==> 0 == b;
    assert Requested(requests, 1) <==> 1 == b;
    assert Requested(requests, 2) <==> 2 == b;
    assert Requested(requests, 3) <==> 3 == b;
    assert Requested(requests, 4) <==> 4 == b;
    assert Requested(requests, 5) <==> 5 == b;
    assert Requested(requests, 6) <==> 6 == b;
  }

  /** Position of the first entry of slot `qmid`, or the length of the list. */
  function FirstOf(list: seq<TokenQmidInfo>, qmid: nat): (x: nat)
    ensures x <= |list| && (x < |list| ==> list[x].qmid == qmid)
    ensures forall y | 0 <= y < x :: list[y].qmid != qmid
  {
    if list == [] || list[0].qmid == qmid then 0 else 1 + FirstOf(list[1..], qmid)
  }

  /** The tests on the request bits after a request came in, in bucket `b` if it was filed. */
  method RaiseHighest(requests: bv8, highest: nat, ghost slots: Slots, ghost b: nat, ghost filed: bool)
    returns (highest': nat, err: ErrorCode)
    requires BitsAgree(requests, slots) && b < 7
    requires if filed then slots[b] != [] && TiersWithin(slots, Higher(highest, b)) else TiersWithin(slots, highest)
    ensures highest' == if filed then Higher(highest, b) else highest
    ensures err == if highest' > highest then TokenUp else Ok
  {
    if filed {
      RaiseTests(requests, slots, highest, b);
    } else {
      QuietTests(requests, slots, highest);
    }
    if requests & 0x48 != 0 && highest < 3 {
      return 3, TokenUp;
    } else if requests & 0x24 != 0 && highest < 2 {
      return 2, TokenUp;
    } else if requests & 0x12 != 0 && highest < 1 {
      return 1, TokenUp;
    }
    return highest, Ok;
  }

  /** The search through a bucket: up to the first entry of the slot. */
  method Search(list: seq<TokenQmidInfo>, qmid: nat) returns (x: nat)
    ensures x == FirstOf(list, qmid)
  {
    x := 0;
    while x < |list| && list[x].qmid != qmid
      invariant 0 <= x <= FirstOf(list, qmid) == x + FirstOf(list[x..], qmid)
    {
      x := x + 1;
    }
  }

  class TokenInfo {
    const text: Word
    var isQuery: bool
    var isDoc: bool
    var requests: bv8
    var highest: nat
    var slots: Slots
    var docs: seq<nat>
    var lastBatch: int

    /** Request bits tell which buckets are in use, and none of them asks for more than `highest`. */
    ghost predicate Valid()
      reads this
    {
      IsToken(text) && highest <= 3 && BitsAgree(requests, slots) && TiersWithin(slots, highest)
          && (!isDoc ==> docs == [])
    }

    constructor (w: Word)
      requires IsToken(w)
      ensures Valid() && text == w && !isQuery && !isDoc && highest == 0 && docs == [] && lastBatch == -1
      ensures slots == NO_SLOTS
    {
      text := w;
      isQuery, isDoc := false, false;
      requests := 0;
      highest := 0;
      slots := NO_SLOTS;
      docs := [];
      lastBatch := -1;
    }

    /** A stored word becomes a query token with its first request. */
    method NewQueryToken(qmid: nat, position: nat, mt: MatchType, dist: nat)
      requires Valid() && !isQuery && IsRequest(mt, dist)
      modifies this
      ensures Valid() && isQuery && isDoc == old(isDoc) && docs == old(docs) && lastBatch == old(lastBatch)
      ensures slots == Filed(NO_SLOTS, mt, dist, TokenQmidInfo(qmid, position))
      ensures highest == RequestTier(mt, dist) == TierOfRequests(requests)
    {
      highest := 0;
      isQuery := true;
      slots := NO_SLOTS;
      requests := 0;
      var _ := InsertQmid(qmid, position, mt, dist);
      if IsFiled(mt, dist) {
        SingleRequestTier(requests, slots, BucketOf(mt, dist));
      } else {
        NoRequests(requests, slots);
      }
    }

    /** A request is filed in its bucket, or nowhere at all at distance 0. */
    method InsertQmid(qmid: nat, position: nat, mt: MatchType, dist: nat) returns (err: ErrorCode)
      requires Valid() && IsRequest(mt, dist)
      modifies this
      ensures Valid() && isQuery == old(isQuery) && isDoc == old(isDoc) && docs == old(docs)
              && lastBatch == old(lastBatch)
      ensures slots == Filed(old(slots), mt, dist, TokenQmidInfo(qmid, position))
      ensures highest == Raised(old(highest), RequestTier(mt, dist))
      ensures err == if highest > old(highest) then TokenUp else Ok
    {
      var b := BucketOf(mt, dist);
      var info := TokenQmidInfo(qmid, position);
      if IsFiled(mt, dist) {
        AfterInsert(requests, slots, highest, b, info);
        requests := requests | RequestBit(b);
        slots := slots[b := slots[b] + [info]];
      }
      highest, err := RaiseHighest(requests, highest, slots, b, IsFiled(mt, dist));
    }

    /** The source reads the size of the bucket's list, which there must be. */
    method RemoveQmid(qmid: nat, mt: MatchType, dist: nat) returns (err: ErrorCode)
      requires Valid() && IsRequest(mt, dist) && slots[BucketOf(mt, dist)] != []
      modifies this
      ensures Valid() && isQuery == old(isQuery) && isDoc == old(isDoc) && docs == old(docs)
              && lastBatch == old(lastBatch)
      ensures var b, list := BucketOf(mt, dist), old(slots)[BucketOf(mt, dist)];
              var x := FirstOf(list, qmid);
              && (x == |list| ==> err == NotFound && slots == old(slots))
              && (x < |list| ==> err == Ok && slots == old(slots)[b := list[..x] + list[x + 1..]])
      ensures highest == if err == Ok && (forall b: nat | b < 7 :: slots[b] == []) then 0 else old(highest)
    {
      hide BitsAgree, TiersWithin, IsToken, FirstOf;
      BitsWidth(requests, slots);
      var b := BucketOf(mt, dist);
      var x := Search(slots[b], qmid);
      if x < |slots[b]| {
        EraseRequest(b, x);
        return Ok;
      }
      return NotFound;
    }

    /** Entry `x` of a bucket goes, the bit of an empty bucket too, and the highest request of a word without any. */
    method EraseRequest(b: nat, x: nat)
      requires Valid() && b < 7 && x < |slots[b]|
      modifies `slots, `requests, `highest
      ensures Valid() && slots == old(slots)[b := old(slots)[b][..x] + old(slots)[b][x + 1..]]
      ensures highest == if forall b: nat | b < 7 :: slots[b] == [] then 0 else old(highest)
    {
      hide BitsAgree, TiersWithin, IsToken;
      BitsWidth(requests, slots);
      var rest := slots[b][..x] + slots[b][x + 1..];
      AfterRemove(requests, slots, highest, b, rest);
      slots := slots[b := rest];
      if slots[b] == [] {
        requests := requests & (0xFF ^ RequestBit(b));
      }
      NoRequests(requests, slots);
      if requests == 0 {
        highest := 0;
      }
    }

    /** A stored word becomes a document word. */
    method NewDocToken(did: nat, batch: int)
      requires Valid() && !isDoc && batch >= 0
      modifies `isDoc, `docs, `lastBatch
      ensures Valid() && isDoc && docs == [did] && lastBatch == batch
    {
      isDoc := true;
      docs := [];
      lastBatch := -1;
      var _ := InsertDid(did, batch);
    }

    method InsertDid(did: nat, batch: int) returns (err: ErrorCode)
      requires Valid() && isDoc
      modifies `docs, `lastBatch
      ensures Valid() && lastBatch == batch
      ensures docs == if old(docs) != [] && old(docs)[|old(docs)| - 1] == did then old(docs) else old(docs) + [did]
      ensures err == if batch == old(lastBatch) then TokenExistsInBatch else Ok
    {
      if |docs| > 0 {
        if docs[|docs| - 1] != did {
          docs := docs + [did];
        }
      } else {
        docs := docs + [did];
      }
      if batch == lastBatch {
        lastBatch := batch;
        return TokenExistsInBatch;
      }
      lastBatch := batch;
      return Ok;
    }

    method ClearIds()
      requires Valid()
      modifies `docs
      ensures Valid() && docs == []
    {
      docs := [];
    }
  }
}
