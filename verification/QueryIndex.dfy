/** Query slots: queries that ask for the same share one, and slots without queries are used again. */
module QueryIndex {
  import opened Words
  import opened MatchPrune
  import opened TokenStructs
  import opened TokenManager
  import opened MatchBatch
  import opened Queries
  import opened QuerySlots

  lemma IdInserted(ids: seq<nat>, it: nat, q: nat)
    requires Increasing(ids) && it <= |ids| && (it > 0 ==> ids[it - 1] < q)
    requires forall x | it <= x < |ids| :: ids[x] > q
    ensures Increasing(ids[..it] + [q] + ids[it..])
  {
    var ids' := ids[..it] + [q] + ids[it..];
    forall x, y | 0 <= x < y < |ids'| ensures ids'[x] < ids'[y] {
      if y < it {
        assert ids'[x] == ids[x] && ids'[y] == ids[y];
      } else if x > it {
        assert ids'[x] == ids[x - 1] && ids'[y] == ids[y - 1];
      } else {
        assert x < it ==> ids'[x] == ids[x] <= ids[it - 1];
        assert y > it ==> ids'[y] == ids[y - 1];
      }
    }
  }

  lemma ElementsInserted(ids: seq<nat>, it: nat, q: nat, x: nat)
    requires it <= |ids|
    ensures x in ids[..it] + [q] + ids[it..] <==> x in ids || x == q
  {
    assert ids == ids[..it] + ids[it..];
  }

  lemma IdErased(ids: seq<nat>, it: nat)
    requires Increasing(ids) && it < |ids|
    ensures Increasing(ids[..it] + ids[it + 1..])
    ensures forall x :: x in ids[..it] + ids[it + 1..] <==> x in ids && x != ids[it]
  {
    assert ids == ids[..it] + [ids[it]] + ids[it + 1..];
  }

  /** `QidsVault::Add`: from the end backwards to the last smaller id; the new one goes behind it. */
  method AddQid(qids: seq<nat>, q: nat) returns (qids': seq<nat>)
    requires Increasing(qids) && q !in qids
    ensures Increasing(qids') && |qids'| == |qids| + 1 && forall x :: x in qids' <==> x in qids || x == q
  {
    var it := |qids|;
    while it != 0
      invariant 0 <= it <= |qids| && forall x | it <= x < |qids| :: qids[x] > q
    {
      it := it - 1;
      if qids[it] < q {
        it := it + 1;
        break;
      }
    }
    IdInserted(qids, it, q);
    forall x: nat {
      ElementsInserted(qids, it, q, x);
    }
    qids' := qids[..it] + [q] + qids[it..];
  }

  /** `QidsVault::Remove`: the first such id, if there is one. */
  method RemoveQid(qids: seq<nat>, q: nat) returns (qids': seq<nat>)
    requires Increasing(qids)
    ensures Increasing(qids') && forall x :: x in qids' <==> x in qids && x != q
    ensures q !in qids ==> qids' == qids
  {
    qids' := qids;
    var it := 0;
    while it != |qids|
      invariant 0 <= it <= |qids| && q !in qids[..it] && qids' == qids
    {
      if qids[it] == q {
        IdErased(qids, it);
        qids' := qids[..it] + qids[it + 1..];
        break;
      }
      it := it + 1;
    }
  }

  /** New words and requests change nothing about the documents. */
  ghost predicate DocsKept(v: View, v': View) {
    && v.texts <= v'.texts && v.occurrences <= v'.occurrences
    && v'.docs == v.docs && v'.newDocs == v.newDocs && v'.current == v.current && v'.batch == v.batch
    && forall x | |v.occurrences| <= x < |v'.occurrences| :: v'.occurrences[x] == []
  }

  /** The empty key of the map from ids to slots, which may not be asked for: its assertion ends the process. */
  const EMPTY_QID := 0

  /** How a call ends. A process that has aborted, or has read through a null pointer, promises nothing any more. */
  datatype Ending = Returned | AbortedOnEmptyKey | ReadNullList

  /** Word number `k` of the slot has no list in the bucket in which a request of the slot is looked for. */
  ghost predicate NoList(view: View, slot: Slot, k: nat) {
    && k < |slot.tids| && slot.tids[k] < |view.slots| && |view.slots[slot.tids[k]]| == 7
        && IsRequest(slot.mt, slot.dist)
    && view.slots[slot.tids[k]][BucketOf(slot.mt, slot.dist)] == []
  }

  ghost predicate LacksList(view: View, slot: Slot) {
    exists k: nat | k < |slot.tids| :: NoList(view, slot, k)
  }

  class QueryIndex {
    const matcher: Matcher
    var vault: seq<Slot>
    var empty: seq<nat>
    var qidIndex: map<nat, nat>
    var qmidIndex: map<nat, seq<nat>>
    ghost var live: map<nat, Pattern>

    ghost predicate Valid()
      reads this, matcher, matcher.manager, matcher.manager.tokens, matcher.rel
    {
      matcher.Valid() && Consistent(matcher.manager.view, vault, live, empty, qidIndex, qmidIndex)
    }

    constructor (matcher: Matcher)
      requires matcher.Valid() && matcher.manager.tokens == []
      ensures Valid() && this.matcher == matcher && live == map[] && vault == [] && qidIndex == map[]
    {
      this.matcher := matcher;
      vault, empty, qidIndex, qmidIndex := [], [], map[], map[];
      live := map[];
    }

    /** The comparison of a query with what a slot asks for. */
    method SameTokens(p: Pattern, slot: Slot) returns (same: bool)
      requires matcher.Valid() && SlotOk(|matcher.manager.view.texts|, slot) && |slot.tids| == |p.words|
      ensures same <==> forall x | 0 <= x < |p.words| :: matcher.manager.view.texts[slot.tids[x]] == p.words[x]
    {
      var i := 0;
      while i < |p.words|
        invariant 0 <= i <= |p.words|
        invariant forall x | 0 <= x < i :: matcher.manager.view.texts[slot.tids[x]] == p.words[x]
      {
        var token := matcher.manager.tokens[slot.tids[i]];
        StrCmpSwaps(p.words[i], token.text);
        if StrCmp(p.words[i], token.text) != 0 {
          return false;
        }
        i := i + 1;
      }
      return true;
    }

    /** The test on one hash entry. */
    method TryEntry(p: Pattern, h: nat, slot: Slot) returns (hit: bool)
      requires matcher.Valid() && SlotOk(|matcher.manager.view.texts|, slot) && h == HashOf(p)
      ensures hit <==> Serves(matcher.manager.view.texts, slot, p) && Light(p)
    {
      HashQuotient(p);
      var t := TypeNumber(slot.mt) * 3 + slot.dist;
      if slot.mt == p.mt && slot.dist == p.dist && t == h / 100000 && |slot.tids| == |p.words| {
        hit := SameTokens(p, slot);
      } else {
        hit := false;
      }
    }

    /**
     * A hit is a slot that asks for just what the query asks for, however stale the entry it was found by. A
     * slot that does is found unless the words weigh 100000 or more: the quotient is not the type and distance then.
     */
    method HashLookup(p: Pattern, h: nat) returns (target: nat)
      requires Valid() && IsPattern(p) && h == HashOf(p)
      ensures target != 0 ==> target <= |vault| && Serves(matcher.manager.view.texts, vault[target - 1], p)
      ensures target != 0 <==> Served(matcher.manager.view.texts, vault, p) && Light(p)
    {
      ghost var texts := matcher.manager.view.texts;
      var list := HashBucket(qmidIndex, h);
      for k := 0 to |list|
        invariant forall x | 0 <= x < k :: !Hit(texts, vault, list[x], p)
      {
        assert list[k] in list;
        var hit := TryEntry(p, h, vault[list[k] - 1]);
        if hit {
          return list[k];
        }
      }
      NothingHit(matcher.manager.view, vault, live, empty, qidIndex, qmidIndex, p);
      return 0;
    }

    /** Slot number `s` asks for the next word of its query. */
    method AskNext(p: Pattern, s: nat, i: nat)
      requires matcher.Valid() && IsPattern(p) && Filling(matcher.manager.view, vault, p, s, i) && i < |p.words|
      modifies this`vault, matcher.manager, matcher.manager.tokens
      ensures matcher.Valid() && Filling(matcher.manager.view, vault, p, s, i + 1)
      ensures vault == old(vault)[s := old(vault)[s].(tids := vault[s].tids)]
      ensures DocsKept(old(matcher.manager.view), matcher.manager.view)
              && matcher.rel.entries == old(matcher.rel.entries)
      ensures forall x | 0 <= x < |matcher.manager.tokens| ::
                matcher.manager.tokens[x] in old(matcher.manager.tokens) || fresh(matcher.manager.tokens[x])
    {
      hide DocsKept, IsPattern, Linked, View.Valid;
      ghost var view, before := matcher.manager.view, vault;
      PatternWord(p, i);
      var tid := matcher.AddQueryToken(p.words[i], s + 1, i, p.mt, p.dist);
      vault := vault[s := vault[s].(tids := vault[s].tids + [tid])];
      WordAsked(view, before, p, s, i, tid, matcher.manager.view, vault);
    }

    /** Slot number `s` asks for every word of its query, one position after the other. */
    method AskAll(p: Pattern, s: nat)
      requires matcher.Valid() && IsPattern(p) && s < |vault| && Filling(matcher.manager.view, vault, p, s, 0)
      modifies this`vault, matcher.manager, matcher.manager.tokens
      ensures matcher.Valid() && Filling(matcher.manager.view, vault, p, s, |p.words|) && s < |vault| == |old(vault)|
      ensures vault == old(vault)[s := old(vault)[s].(tids := vault[s].tids)]
      ensures DocsKept(old(matcher.manager.view), matcher.manager.view)
              && matcher.rel.entries == old(matcher.rel.entries)
      ensures forall x | 0 <= x < |matcher.manager.tokens| ::
                matcher.manager.tokens[x] in old(matcher.manager.tokens) || fresh(matcher.manager.tokens[x])
    {
      hide Matcher.Valid, IsPattern;
      assert vault == vault[s := vault[s].(tids := [])];
      for i := 0 to |p.words|
        invariant matcher.Valid() && Filling(matcher.manager.view, vault, p, s, i)
        invariant vault == old(vault)[s := old(vault)[s].(tids := vault[s].tids)]
        invariant DocsKept(old(matcher.manager.view), matcher.manager.view)
                  && matcher.rel.entries == old(matcher.rel.entries)
        invariant forall x | 0 <= x < |matcher.manager.tokens| ::
                    matcher.manager.tokens[x] in old(matcher.manager.tokens) || fresh(matcher.manager.tokens[x])
      {
        AskNext(p, s, i);
      }
    }

    /**
     * A query is given the slot that serves it already or else a slot of its own, a recycled one if there is
     * one. Nothing is asked of any word in the first case. All of this needs an id other than the empty key of
     * the id map, which is indexed in every case.
     */
    method AddQuery(q: Query) returns (ending: Ending, qmid: nat, added: bool)
      requires Valid() && q.Valid() && q.tokens != [] && q.qid !in qidIndex
      modifies this, matcher.manager, matcher.manager.tokens
      ensures ending == if q.qid == EMPTY_QID then AbortedOnEmptyKey else Returned
      ensures ending.Returned? ==>
              Valid() && live == old(live)[q.qid := q.Asked()] && qidIndex == old(qidIndex)[q.qid := qmid]
      ensures ending.Returned? ==>
                (!added <==> old(Served(matcher.manager.view.texts, vault, q.Asked())) && Light(q.Asked()))
      ensures ending.Returned? && !added ==> matcher.manager.view == old(matcher.manager.view)
      ensures ending.Returned? ==> |vault| == |old(vault)| + if added && old(empty) == [] then 1 else 0
      ensures DocsKept(old(matcher.manager.view), matcher.manager.view)
              && matcher.rel.entries == old(matcher.rel.entries)
      ensures forall x | 0 <= x < |matcher.manager.tokens| ::
                matcher.manager.tokens[x] in old(matcher.manager.tokens) || fresh(matcher.manager.tokens[x])
      ensures ending.Returned? && added ==>
                && qmidIndex == Pushed(old(qmidIndex), HashOf(q.Asked()), qmid) && qmid > 0
                && Taken(old(vault), old(empty), vault, empty, qmid - 1)
      ensures ending.Returned? && !added ==>
                && qmidIndex == old(qmidIndex) && empty == old(empty) && 1 <= qmid <= |old(vault)| == |vault|
                && vault == old(vault)[qmid - 1 := old(vault)[qmid - 1].(qids := vault[qmid - 1].qids)]
    {
      hide Matcher.Valid, Consistent, Light, Served, Serves;
      var id, p := q.qid, q.Asked();
      var h := q.HashValue();
      qmid := HashLookup(p, h);
      if id == EMPTY_QID {
        return AbortedOnEmptyKey, qmid, false;
      }
      if qmid != 0 {
        Join(id, p, qmid);
        return Returned, qmid, false;
      }
      qmid := Admit(id, p, h);
      return Returned, qmid, true;
    }

    /** A slot for a query of its own: the top of the recycle stack, or a new one. */
    method TakeSlot(id: nat, p: Pattern) returns (s: nat)
      requires Valid() && IsPattern(p) && id !in qidIndex
      modifies this`vault, this`empty
      ensures Filling(matcher.manager.view, vault, p, s, 0)
      ensures Taken(old(vault), old(empty), vault, empty, s) && s < |vault| && vault[s].qids == [id]
    {
      ghost var view, before, cells := matcher.manager.view, vault, empty;
      NewIdNotLive(view, vault, live, empty, qidIndex, qmidIndex, id);
      TopIsEmpty(vault, empty);
      if empty != [] {
        var target := empty[|empty| - 1];
        empty := empty[..|empty| - 1];
        s := target - 1;
        var qids := AddQid(vault[s].qids, id);
        OneId(qids, id);
        vault := vault[s := vault[s].(qids := qids, mt := p.mt, dist := p.dist)];
      } else {
        var qids := AddQid([], id);
        OneId(qids, id);
        s := |vault|;
        vault := vault + [Slot(qids, p.mt, p.dist, [])];
      }
      MovedIn(view, before, live, cells, qidIndex, qmidIndex, vault, s, id, p);
    }

    /** The query moves into a slot of its own. */
    method Admit(id: nat, p: Pattern, h: nat) returns (qmid: nat)
      requires Valid() && IsPattern(p) && id !in qidIndex && h == HashOf(p)
      requires !Served(matcher.manager.view.texts, vault, p) || !Light(p)
      modifies this, matcher.manager, matcher.manager.tokens
      ensures Valid() && live == old(live)[id := p] && qidIndex == old(qidIndex)[id := qmid]
      ensures |vault| == |old(vault)| + if old(empty) == [] then 1 else 0
      ensures DocsKept(old(matcher.manager.view), matcher.manager.view)
              && matcher.rel.entries == old(matcher.rel.entries)
      ensures forall x | 0 <= x < |matcher.manager.tokens| ::
                matcher.manager.tokens[x] in old(matcher.manager.tokens) || fresh(matcher.manager.tokens[x])
      ensures qmidIndex == Pushed(old(qmidIndex), h, qmid) && qmid > 0
      ensures Taken(old(vault), old(empty), vault, empty, qmid - 1)
    {
      hide Matcher.Valid, Consistent, Filling, IsPattern, Taken, Increasing, DocsKept, Pushed;
      ghost var view, before, cells := matcher.manager.view, vault, empty;
      NewIdNotLive(view, vault, live, empty, qidIndex, qmidIndex, id);
      var s := TakeSlot(id, p);
      ghost var taken := vault;
      AskAll(p, s);
      qmid := s + 1;
      TakenStays(before, cells, taken, empty, s, vault);
      QuerySettled(view, before, live, cells, qidIndex, qmidIndex, matcher.manager.view, taken, vault, empty, s, id, p);
      qmidIndex, qidIndex, live := Pushed(qmidIndex, h, qmid), qidIndex[id := qmid], live[id := p];
    }

    /** The query joins a slot that serves it. */
    method Join(id: nat, p: Pattern, qmid: nat)
      requires Valid() && IsPattern(p) && id !in qidIndex
      requires 1 <= qmid <= |vault| && Serves(matcher.manager.view.texts, vault[qmid - 1], p) && Light(p)
      modifies this
      ensures Valid() && live == old(live)[id := p] && qidIndex == old(qidIndex)[id := qmid]
      ensures |vault| == |old(vault)|
      ensures qmidIndex == old(qmidIndex) && empty == old(empty)
      ensures vault == old(vault)[qmid - 1 := old(vault)[qmid - 1].(qids := vault[qmid - 1].qids)]
    {
      hide Matcher.Valid, Consistent, Serves, IsPattern, Increasing;
      NewIdNotLive(matcher.manager.view, vault, live, empty, qidIndex, qmidIndex, id);
      var qids := AddQid(vault[qmid - 1].qids, id);
      QueryJoined(matcher.manager.view, vault, live, empty, qidIndex, qmidIndex, qids, qmid - 1, id, p);
      vault := vault[qmid - 1 := vault[qmid - 1].(qids := qids)];
      qidIndex := qidIndex[id := qmid];
      live := live[id := p];
    }

    /** Slot number `s` takes its request number `k` back, unless there is no list to look for it in. */
    method WithdrawNext(s: nat, k: nat) returns (fault: bool)
      requires matcher.Valid() && Withdrawing(matcher.manager.view, vault, s, k) && s < |vault| && k < |vault[s].tids|
      modifies matcher.manager, matcher.manager.tokens
      ensures fault <==> NoList(old(matcher.manager.view), vault[s], k)
      ensures matcher.Valid() && (!fault ==> Withdrawing(matcher.manager.view, vault, s, k + 1))
      ensures fault || !IsFiled(vault[s].mt, vault[s].dist) ==> matcher.manager.view == old(matcher.manager.view)
      ensures SameDocs(old(matcher.manager.view), matcher.manager.view)
              && matcher.rel.entries == old(matcher.rel.entries)
      ensures forall x | 0 <= x < |matcher.manager.tokens| ::
                matcher.manager.tokens[x] in old(matcher.manager.tokens) || fresh(matcher.manager.tokens[x])
    {
      hide Withdrawing, SameDocs, View.Valid;
      var slot := vault[s];
      Withdrawable(matcher.manager.view, vault, s, k);
      assert matcher.manager.TokenShown(slot.tids[k]);
      if matcher.manager.tokens[slot.tids[k]].slots[BucketOf(slot.mt, slot.dist)] == [] {
        return true;
      }
      matcher.RemoveRequest(slot.tids[k], s + 1, slot.mt, slot.dist);
      return false;
    }

    /** All requests of slot number `s` are taken back. */
    method WithdrawAll(s: nat) returns (fault: bool)
      requires matcher.Valid() && s < |vault| && Withdrawing(matcher.manager.view, vault, s, 0)
      modifies matcher.manager, matcher.manager.tokens
      ensures fault <==> LacksList(old(matcher.manager.view), vault[s])
      ensures matcher.Valid() && (!fault ==> Withdrawing(matcher.manager.view, vault, s, |vault[s].tids|))
      ensures SameDocs(old(matcher.manager.view), matcher.manager.view)
              && matcher.rel.entries == old(matcher.rel.entries)
      ensures forall x | 0 <= x < |matcher.manager.tokens| ::
                matcher.manager.tokens[x] in old(matcher.manager.tokens) || fresh(matcher.manager.tokens[x])
    {
      hide Matcher.Valid, Withdrawing, NoList;
      ghost var view := matcher.manager.view;
      FiledHasLists(view, vault, s);
      for i := 0 to |vault[s].tids|
        invariant matcher.Valid() && Withdrawing(matcher.manager.view, vault, s, i)
        invariant forall k: nat | k < i :: !NoList(view, vault[s], k)
        invariant !IsFiled(vault[s].mt, vault[s].dist) ==> matcher.manager.view == view
        invariant SameDocs(view, matcher.manager.view) && matcher.rel.entries == old(matcher.rel.entries)
        invariant forall x | 0 <= x < |matcher.manager.tokens| ::
                    matcher.manager.tokens[x] in old(matcher.manager.tokens) || fresh(matcher.manager.tokens[x])
      {
        RequestHasList(matcher.manager.view, vault, s, i);
        fault := WithdrawNext(s, i);
        if fault {
          return;
        }
      }
      fault := false;
    }

    /** The id has been removed before and the slot it was in has no ids any more. */
    ghost predicate Stale(id: nat)
      reads this
    {
      id in qidIndex && id !in live && 1 <= qidIndex[id] <= |vault| && vault[qidIndex[id] - 1].qids == []
    }

    /** Removing the id makes the source look for a request in a list that is not there. */
    ghost predicate Unlisted(id: nat)
      reads this, matcher, matcher.manager
    {
      && id in qidIndex && 1 <= qidIndex[id] <= |vault| && OnlyId(vault[qidIndex[id] - 1].qids, id)
      && LacksList(matcher.manager.view, vault[qidIndex[id] - 1])
    }

    /**
     * A live query leaves its slot, and the last one takes the requests of the slot back. An unknown id does
     * nothing, and neither does one removed before, as long as its old slot is in use. Otherwise the slot is put on
     * the recycle stack a second time, which is why an id must not be removed twice.
     */
    method RemoveQuery(id: nat) returns (ending: Ending)
      requires Valid()
      modifies this, matcher.manager, matcher.manager.tokens
      ensures ending == if id == EMPTY_QID then AbortedOnEmptyKey else if old(Unlisted(id)) then ReadNullList
              else Returned
      ensures ending.Returned? ==> live == old(live) - {id} && qidIndex == old(qidIndex)
      ensures ending.Returned? ==> (Valid() <==> !old(Stale(id)))
      ensures ending.Returned? && old(Stale(id)) ==> vault == old(vault) && empty == old(empty) + [old(qidIndex[id])]
      ensures SameDocs(old(matcher.manager.view), matcher.manager.view)
              && matcher.rel.entries == old(matcher.rel.entries)
      ensures forall x | 0 <= x < |matcher.manager.tokens| ::
                matcher.manager.tokens[x] in old(matcher.manager.tokens) || fresh(matcher.manager.tokens[x])
      ensures ending.Returned? ==> qmidIndex == old(qmidIndex)
      ensures ending.Returned? && id !in old(qidIndex) ==> vault == old(vault) && empty == old(empty)
      ensures ending.Returned? && id in old(qidIndex) ==>
                IdTaken(old(vault), old(empty), vault, empty, old(qidIndex)[id], id)
    {
      hide Matcher.Valid, Consistent, Increasing, LacksList;
      LiveIsThere(matcher.manager.view, vault, live, empty, qidIndex, qmidIndex, id);
      if id == EMPTY_QID {
        return AbortedOnEmptyKey;
      }
      var qmid := if id in qidIndex then qidIndex[id] else 0;
      if qmid == 0 {
        assert live - {id} == live;
        return Returned;
      }
      var qids := RemoveQid(vault[qmid - 1].qids, id);
      if qids != [] {
        assert qids[0] in vault[qmid - 1].qids;
        StillUsed(matcher.manager.view, vault, live, empty, qidIndex, qmidIndex, qids, qmid - 1, id);
        vault := vault[qmid - 1 := vault[qmid - 1].(qids := qids)];
        live := live - {id};
        return Returned;
      } else {
        var fault := Vacate(id, qmid);
        return if fault then ReadNullList else Returned;
      }
    }

    /** The slot has lost its last id, or had none. */
    method Vacate(id: nat, qmid: nat) returns (fault: bool)
      requires Valid() && id in qidIndex && qmid == qidIndex[id] && 1 <= qmid <= |vault|
      requires OnlyId(vault[qmid - 1].qids, id)
      modifies this`vault, this`live, this`empty, matcher.manager, matcher.manager.tokens
      ensures fault <==> old(LacksList(matcher.manager.view, vault[qmid - 1]))
      ensures !fault ==> (Valid() <==> id in old(live))
      ensures !fault ==> live == old(live) - {id} && empty == old(empty) + [qmid]
      ensures !fault ==> vault == old(vault)[qmid - 1 := old(vault)[qmid - 1].(qids := [], tids := [])]
      ensures SameDocs(old(matcher.manager.view), matcher.manager.view)
              && matcher.rel.entries == old(matcher.rel.entries)
      ensures forall x | 0 <= x < |matcher.manager.tokens| ::
                matcher.manager.tokens[x] in old(matcher.manager.tokens) || fresh(matcher.manager.tokens[x])
    {
      hide Matcher.Valid, Linked, LiveOk, EmptyOk, HashOk, Withdrawing, LacksList;
      ghost var view, before := matcher.manager.view, vault;
      var s := qmid - 1;
      WithoutIdsLinked(view, vault, s);
      vault := vault[s := vault[s].(qids := [])];
      ListsSame(view, before[s], vault[s]);
      fault := WithdrawAll(s);
      if fault {
        return;
      }
      ghost var cleared := vault;
      vault := vault[s := vault[s].(tids := [])];
      Vacated(view, before, live, empty, qidIndex, qmidIndex, matcher.manager.view, cleared, vault, s, id);
      empty := empty + [qmid];
      live := live - {id};
    }
  }

  /** The id has gone from slot number `m`, which is put on the recycle stack if no other id was in it. */
  ghost predicate IdTaken(slots: seq<Slot>, empty: seq<nat>, slots': seq<Slot>, empty': seq<nat>, m: nat, id: nat) {
    1 <= m <= |slots| == |slots'| &&
    var slot, slot' := slots[m - 1], slots'[m - 1];
    && (forall x :: x in slot'.qids <==> x in slot.qids && x != id)
    && if OnlyId(slot.qids, id) then
         empty' == empty + [m] && slots' == slots[m - 1 := slot.(qids := [], tids := [])]
       else
         empty' == empty && slots' == slots[m - 1 := slot.(qids := slot'.qids)]
  }

  lemma TakenStays(slots: seq<Slot>, empty: seq<nat>, taken: seq<Slot>, empty': seq<nat>, s: nat, slots': seq<Slot>)
    requires Taken(slots, empty, taken, empty', s) && s < |slots'| && slots' == taken[s := slots'[s]]
    ensures Taken(slots, empty, slots', empty', s)
  {
  }

  lemma ListsSame(view: View, slot: Slot, slot': Slot)
    requires slot'.tids == slot.tids && slot'.mt == slot.mt && slot'.dist == slot.dist
    ensures LacksList(view, slot) <==> LacksList(view, slot')
  {
    assert forall k: nat :: NoList(view, slot, k) <==> NoList(view, slot', k);
  }

  /** Nothing changes about the words and the documents. */
  ghost predicate SameDocs(v: View, v': View) {
    && v'.texts == v.texts && v'.occurrences == v.occurrences
    && v'.docs == v.docs && v'.newDocs == v.newDocs && v'.current == v.current && v'.batch == v.batch
  }

  /** The next request of the slot can be taken back if there is a list, and then it is gone. */
  lemma Withdrawable(view: View, slots: seq<Slot>, s: nat, k: nat)
    requires view.Valid() && Withdrawing(view, slots, s, k) && s < |slots| && k < |slots[s].tids|
    ensures IsRequest(slots[s].mt, slots[s].dist)
    ensures var tid, b := slots[s].tids[k], BucketOf(slots[s].mt, slots[s].dist);
            && tid < |view.slots| == |view.texts| && |view.slots[tid]| == 7
            && (NoList(view, slots[s], k) <==> view.slots[tid][b] == [])
            && (view.slots[tid][b] != [] ==> tid in view.queries)
            && var view' := view.WithoutRequest(tid, b, s + 1);
            && Withdrawing(view', slots, s, k + 1) && SameDocs(view, view')
            && (!IsFiled(slots[s].mt, slots[s].dist) ==> view' == view)
  {
    var tid, b := slots[s].tids[k], BucketOf(slots[s].mt, slots[s].dist);
    TrackedWithoutRequest(view.slots, slots, s, k, b, view.WithoutRequest(tid, b, s + 1).slots);
    if !IsFiled(slots[s].mt, slots[s].dist) {
      UnfiledNowhere(view.slots, slots, s, k, tid, b);
    }
    assert SameDocs(view, view.WithoutRequest(tid, b, s + 1));
  }

  /** A request that was filed is in a list. */
  lemma RequestHasList(view: View, slots: seq<Slot>, s: nat, k: nat)
    requires Withdrawing(view, slots, s, k) && s < |slots| && k < |slots[s].tids|
    ensures IsFiled(slots[s].mt, slots[s].dist) ==> !NoList(view, slots[s], k)
  {
    if IsFiled(slots[s].mt, slots[s].dist) {
      FirstIsRequest(view.slots, slots, s, k);
    }
  }

  /** Only requests that were not filed can lack a list. */
  lemma FiledHasLists(view: View, slots: seq<Slot>, s: nat)
    requires Withdrawing(view, slots, s, 0) && s < |slots|
    ensures IsFiled(slots[s].mt, slots[s].dist) ==> forall k: nat | k < |slots[s].tids| :: !NoList(view, slots[s], k)
  {
    if IsFiled(slots[s].mt, slots[s].dist) {
      forall k: nat | k < |slots[s].tids| ensures !NoList(view, slots[s], k) {
        var tid, b := slots[s].tids[k], BucketOf(slots[s].mt, slots[s].dist);
        assert Asks(slots, s, 0, TokenQmidInfo(s + 1, k), tid, b);
        assert TokenQmidInfo(s + 1, k) in view.slots[tid][b];
      }
    }
  }

  /** The entry leads to a slot that asks for just this, and the hash value tells so. */
  ghost predicate Hit(texts: seq<Word>, slots: seq<Slot>, qmid: nat, p: Pattern) {
    1 <= qmid <= |slots| && Serves(texts, slots[qmid - 1], p) && Light(p)
  }

  lemma NothingHit(view: View, slots: seq<Slot>, live: map<nat, Pattern>, empty: seq<nat>, qidIndex: map<nat, nat>,
                   qmidIndex: map<nat, seq<nat>>, p: Pattern)
    requires Consistent(view, slots, live, empty, qidIndex, qmidIndex) && p.words != []
    requires forall m <- HashBucket(qmidIndex, HashOf(p)) :: !Hit(view.texts, slots, m, p)
    ensures !Served(view.texts, slots, p) || !Light(p)
  {
    forall s | 0 <= s < |slots| && Serves(view.texts, slots[s], p) ensures !Light(p) {
      ServesIsFound(view, slots, live, empty, qidIndex, qmidIndex, s, p);
      assert !Hit(view.texts, slots, s + 1, p);
    }
  }

  /** Slot number `s` has asked for the first `i` words of its query. */
  ghost predicate Filling(view: View, slots: seq<Slot>, p: Pattern, s: nat, i: nat) {
    && Linked(view, slots) && s < |slots| && slots[s].mt == p.mt && slots[s].dist == p.dist
        && |slots[s].tids| == i <= |p.words|
    && forall x | 0 <= x < i :: slots[s].tids[x] < |view.texts| && view.texts[slots[s].tids[x]] == p.words[x]
  }

  lemma TopIsEmpty(slots: seq<Slot>, empty: seq<nat>)
    requires EmptyOk(slots, empty)
    ensures empty != [] ==> var m := empty[|empty| - 1];
            1 <= m <= |slots| && slots[m - 1].qids == slots[m - 1].tids == []
  {
    if empty != [] {
      assert empty[|empty| - 1] in empty;
    }
  }

  lemma OneId(qids: seq<nat>, id: nat)
    requires |qids| == 1 && forall x :: x in qids ==> x == id
    ensures qids == [id]
  {
    assert qids[0] in qids;
  }

  /** A query has moved into a slot of its own, which has yet to ask for its words. */
  lemma MovedIn(view: View, slots: seq<Slot>, live: map<nat, Pattern>, empty: seq<nat>, qidIndex: map<nat, nat>,
                qmidIndex: map<nat, seq<nat>>, slots': seq<Slot>, s: nat, id: nat, p: Pattern)
    requires Consistent(view, slots, live, empty, qidIndex, qmidIndex) && IsPattern(p)
    requires if empty == [] then s == |slots| && slots' == slots + [Slot([id], p.mt, p.dist, [])] else
             s + 1 == empty[|empty| - 1] && s < |slots|
                 && slots' == slots[s := slots[s].(qids := [id], mt := p.mt, dist := p.dist)]
    ensures Filling(view, slots', p, s, 0)
  {
    if empty != [] {
      assert s + 1 in empty;
    }
    TrackedAlike(view.slots, slots, |slots|, slots', |slots'|);
  }

  /** The slot that was taken has asked for all its words. */
  lemma QuerySettled(view: View, slots: seq<Slot>, live: map<nat, Pattern>, empty: seq<nat>, qidIndex: map<nat, nat>,
                     qmidIndex: map<nat, seq<nat>>, view': View, taken: seq<Slot>, slots': seq<Slot>,
                     empty': seq<nat>, s: nat, id: nat, p: Pattern)
    requires Consistent(view, slots, live, empty, qidIndex, qmidIndex) && DocsKept(view, view') && id !in live
             && IsPattern(p)
    requires !Served(view.texts, slots, p) || !Light(p)
    requires Taken(slots, empty, taken, empty', s) && s < |taken| && taken[s].qids == [id]
    requires Filling(view', slots', p, s, |p.words|) && s < |slots'|
             && slots' == taken[s := taken[s].(tids := slots'[s].tids)]
    ensures Consistent(view', slots', live[id := p], empty', qidIndex[id := s + 1], Pushed(qmidIndex, HashOf(p), s + 1))
    ensures |slots'| == |slots| + if empty == [] then 1 else 0
  {
    QueryAdded(view, slots, live, empty, qidIndex, qmidIndex, view', slots', empty', s, id, p);
  }

  lemma PatternWord(p: Pattern, i: nat)
    requires IsPattern(p) && i < |p.words|
    ensures IsToken(p.words[i]) && IsRequest(p.mt, p.dist)
  {
    assert p.words[i] in p.words;
  }

  /** The effect of one more request on the bookkeeping. */
  lemma WordAsked(view: View, slots: seq<Slot>, p: Pattern, s: nat, i: nat, tid: nat, view': View, slots': seq<Slot>)
    requires view.Valid() && IsPattern(p) && Filling(view, slots, p, s, i) && i < |p.words|
    requires var v1 := view.WithWord(p.words[i], tid);
             && IsRequest(p.mt, p.dist) && tid < |v1.texts| && v1.texts[tid] == p.words[i] && |v1.slots| == |v1.texts|
                 && |v1.slots[tid]| == 7
             && view' == v1.WithRequest(tid, p.mt, p.dist, TokenQmidInfo(s + 1, i))
    requires slots' == slots[s := slots[s].(tids := slots[s].tids + [tid])]
    ensures Filling(view', slots', p, s, i + 1) && DocsKept(view, view')
  {
    if tid == |view.texts| {
      TrackedWithWord(view.slots, slots, |slots|, 0);
    }
    forall x | 0 <= x < i ensures slots[s].tids[x] != tid {
      AscendingDistinct(p.words, x, i);
    }
    TrackedWithRequest(view.WithWord(p.words[i], tid).slots, slots, s, tid, slots', view'.slots);
  }

  /** Only the removal of a live Hamming or edit query at distance 0 can miss a list. */
  lemma UnlistedIsUnfiled(index: QueryIndex, id: nat)
    requires index.Valid()
    ensures index.Unlisted(id) ==> id in index.live && !IsFiled(index.live[id].mt, index.live[id].dist)
  {
    hide Matcher.Valid, Linked, EmptyOk, HashOk, Withdrawing, LacksList;
    if index.Unlisted(id) {
      var view, s := index.matcher.manager.view, index.qidIndex[id] - 1;
      LiveIsThere(view, index.vault, index.live, index.empty, index.qidIndex, index.qmidIndex, id);
      OnlyIdOrNone(index.vault[s].qids, id);
      LacksListUnfiled(view, index.vault, s);
      assert id in index.live ==> LiveAt(view.texts, index.vault, index.live[id], s + 1, id);
    }
  }

  lemma LacksListUnfiled(view: View, slots: seq<Slot>, s: nat)
    requires Linked(view, slots) && s < |slots|
    ensures LacksList(view, slots[s]) ==> slots[s].tids != [] && !IsFiled(slots[s].mt, slots[s].dist)
  {
    WithoutIdsLinked(view, slots, s);
    FiledHasLists(view, slots[s := slots[s].(qids := [])], s);
    ListsSame(view, slots[s], slots[s].(qids := []));
  }

  /** Without live queries a slot that was ever used has no ids. */
  lemma NoneLive(index: QueryIndex, id: nat)
    requires index.Valid() && index.live == map[] && id in index.qidIndex
    ensures index.Stale(id)
  {
    LiveIsThere(index.matcher.manager.view, index.vault, index.live, index.empty, index.qidIndex, index.qmidIndex, id);
    var qids := index.vault[index.qidIndex[id] - 1].qids;
    assert IdsOk(index.vault[index.qidIndex[id] - 1], index.live.Keys, index.qidIndex, index.qidIndex[id]);
    FirstIsIn(qids);
  }

  /** The shortest way to an index that is not valid any more: one query, removed twice. */
  method RemovedTwice(mur: HashFunction) returns (index: QueryIndex)
    ensures !index.Valid()
  {
    hide Consistent, Matcher.Valid;
    var matcher := new Matcher(mur);
    index := new QueryIndex(matcher);
    var q := new Query(ExactMatch, 0, 1);
    q.AddToken("word");
    assert "word" in q.tokens;
    var _, _, _ := index.AddQuery(q);
    UnlistedIsUnfiled(index, 1);
    var _ := index.RemoveQuery(1);
    assert index.live == map[];
    NoneLive(index, 1);
    UnlistedIsUnfiled(index, 1);
    var _ := index.RemoveQuery(1);
  }
}
