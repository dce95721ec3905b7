/** `scheduleGenRes` and `GenerateRes`: the entries of all words of the batch are turned into hits. */
module GenerateRes {
  import opened Words
  import opened MatchPrune
  import opened TokenStructs
  import opened TokenManager
  import opened BatchJobs
  import opened Queries
  import opened HitMatrix
  import opened Verdict

  ghost function AsSet(list: seq<nat>): set<nat> {
    set w | w in list
  }

  /** The entries of some words make a hit. */
  ghost predicate HitByWords(view: View, entries: seq<Entry>, words: set<nat>, d: nat, s: nat, p: nat) {
    exists e <- entries :: e.wid in words && HitByEntry(view, e, d, s, p)
  }

  /** The matrix shows the hits of the given words, and no others. */
  ghost predicate Shown(area: BitArea, view: View, entries: seq<Entry>, words: set<nat>)
    reads area, area.count, area.token
  {
    && area.Valid()
    && forall d: nat, s: nat, p: nat | d < area.ndocs && s < area.size && p < MAX_QUERY_WORDS ::
         area.Marked(d, s, p) <==> HitByWords(view, entries, words, d, s, p)
  }

  /** What the marking relies on: lists of existing documents and slots. */
  ghost predicate Markable(view: View, entries: seq<Entry>, ndocs: nat, size: nat) {
    && (forall e <- entries :: e.wid < |view.occurrences| && e.tid < |view.slots|)
    && (forall x: nat | x < |view.occurrences| :: forall did <- view.occurrences[x] :: 1 <= did <= ndocs)
    && (forall x: nat | x < |view.slots| :: |view.slots[x]| == 7)
    && (forall x: nat, b: nat | x < |view.slots| && b < 7 && b < |view.slots[x]| ::
          forall info <- view.slots[x][b] :: 1 <= info.qmid <= size && info.position < MAX_QUERY_WORDS)
  }

  /** The hits of one entry. */
  method MarkEntry(area: BitArea, manager: TokenManager, entries: seq<Entry>, e: Entry)
    requires area.Valid() && manager.Valid() && Markable(manager.view, entries, area.ndocs, area.size) && e in entries
    modifies area.token
    ensures area.Valid() && forall d: nat, s: nat, p: nat | d < area.ndocs && s < area.size && p < MAX_QUERY_WORDS ::
              area.Marked(d, s, p) <==> old(area.Marked(d, s, p)) || HitByEntry(manager.view, e, d, s, p)
  {
    hide TokenInfo.Valid;
    assert manager.TokenShown(e.wid) && manager.TokenShown(e.tid);
    area.SetStauros(manager.tokens[e.wid].docs, manager.tokens[e.tid].slots, e.mask);
  }

  /** The hits of one word, whose entries are looked up in the relation. */
  method MarkWord(area: BitArea, manager: TokenManager, entries: seq<Entry>, w: nat, ghost words: set<nat>)
    requires manager.Valid() && Markable(manager.view, entries, area.ndocs, area.size)
    requires Shown(area, manager.view, entries, words)
    modifies area.token
    ensures Shown(area, manager.view, entries, words + {w}) && manager.Valid()
  {
    hide TokenManager.Valid, Markable, HitByEntry;
    ghost var view := manager.view;
    for k := 0 to |entries|
      invariant area.Valid() && manager.Valid() && manager.view == view
      invariant forall d: nat, s: nat, p: nat | d < area.ndocs && s < area.size && p < MAX_QUERY_WORDS ::
                  area.Marked(d, s, p) <==>
                      HitByWords(view, entries, words, d, s, p) || HitByWords(view, entries[..k], {w}, d, s, p)
    {
      ghost var e := entries[k];
      assert e in entries;
      if entries[k].wid == w {
        MarkEntry(area, manager, entries, entries[k]);
      }
      assert entries[..k + 1] == entries[..k] + [e];
    }
    assert entries[..|entries|] == entries;
  }

  // ----- the jobs -----

  /** A range of the list of batch words of one length. */
  datatype GenRes = GenRes(length: nat, start: nat, end: nat)

  /** The ranges, each within its list. */
  ghost predicate InLists(jobs: seq<GenRes>, wordbatch: seq<nat>, texts: seq<Word>) {
    forall job <- jobs :: job.start <= job.end <= |ListedDocs(wordbatch, texts, job.length)|
  }

  /** The word is in the range of a job. */
  predicate InJob(job: GenRes, wordbatch: seq<nat>, texts: seq<Word>, w: nat) {
    var list := ListedDocs(wordbatch, texts, job.length);
    job.start <= job.end <= |list| && w in list[job.start..job.end]
  }

  ghost predicate InSomeJob(jobs: seq<GenRes>, wordbatch: seq<nat>, texts: seq<Word>, w: nat) {
    exists job <- jobs :: InJob(job, wordbatch, texts, w)
  }

  /** The list is cut into ranges, the longer the fewer new query tokens there are, what is left being the last one. */
  method PushRanges(jobs0: seq<GenRes>, wordbatch: seq<nat>, texts: seq<Word>, length: nat, batchQtokens: nat)
      returns (jobs: seq<GenRes>)
    requires InLists(jobs0, wordbatch, texts)
    ensures InLists(jobs, wordbatch, texts) && jobs0 <= jobs
    ensures forall w <- ListedDocs(wordbatch, texts, length) :: InSomeJob(jobs, wordbatch, texts, w)
    ensures var size := |ListedDocs(wordbatch, texts, length)|;
            CutIntoRanges(jobs0, jobs, length, size, size / (batchQtokens + 1) / 4 + 1)
  {
    hide InLists, InSomeJob, RangesSoFar, CutAt, ListedDocs;
    var list := ListedDocs(wordbatch, texts, length);
    jobs := jobs0;
    var perJob := |list| / (batchQtokens + 1) / 4 + 1;
    var i := 0;
    ghost var n: nat := 0;
    NoRange(jobs0, length, |list|, perJob);
    while i < |list| - perJob
      invariant 0 <= i <= |list| && InLists(jobs, wordbatch, texts) && jobs0 <= jobs
      invariant i == n * perJob && |jobs| == |jobs0| + n && RangesSoFar(jobs0, jobs, length, |list|, perJob)
      invariant forall w <- list[..i] :: InSomeJob(jobs, wordbatch, texts, w)
    {
      NextCut(n, perJob);
      RangeMore(jobs0, jobs, length, |list|, perJob, n);
      jobs := PushRange(jobs, wordbatch, texts, length, i, i + perJob);
      i := i + perJob;
      n := n + 1;
    }
    NextCut(n, perJob);
    if i != |list| {
      RangeMore(jobs0, jobs, length, |list|, perJob, n);
      jobs := PushRange(jobs, wordbatch, texts, length, i, |list|);
    }
    assert list[..|list|] == list;
  }

  /** The jobs behind `jobs0` are ranges of `perJob` words each, one behind the other. */
  ghost predicate RangesSoFar(jobs0: seq<GenRes>, jobs: seq<GenRes>, length: nat, size: nat, perJob: nat) {
    jobs0 <= jobs && forall y | |jobs0| <= y < |jobs| ::
      jobs[y] == GenRes(length, CutAt(y - |jobs0|, size, perJob), CutAt(y - |jobs0| + 1, size, perJob))
      && CutAt(y - |jobs0|, size, perJob) < size
  }

  lemma NoRange(jobs0: seq<GenRes>, length: nat, size: nat, perJob: nat)
    ensures RangesSoFar(jobs0, jobs0, length, size, perJob)
  {
  }

  /** One more range. */
  lemma RangeMore(jobs0: seq<GenRes>, jobs: seq<GenRes>, length: nat, size: nat, perJob: nat, n: nat)
    requires RangesSoFar(jobs0, jobs, length, size, perJob) && |jobs| == |jobs0| + n && n * perJob < size
    ensures var end := if n * perJob + perJob > size then size else n * perJob + perJob;
            RangesSoFar(jobs0, jobs + [GenRes(length, n * perJob, end)], length, size, perJob)
  {
    NextCut(n, perJob);
  }

  /** They are all the ranges the list is cut into. */
  ghost predicate CutIntoRanges(jobs0: seq<GenRes>, jobs: seq<GenRes>, length: nat, size: nat, perJob: nat) {
    RangesSoFar(jobs0, jobs, length, size, perJob) && size <= (|jobs| - |jobs0|) * perJob
  }

  method PushRange(jobs0: seq<GenRes>, wordbatch: seq<nat>, texts: seq<Word>, length: nat, start: nat, end: nat)
      returns (jobs: seq<GenRes>)
    requires InLists(jobs0, wordbatch, texts) && start <= end <= |ListedDocs(wordbatch, texts, length)|
    requires forall w <- ListedDocs(wordbatch, texts, length)[..start] :: InSomeJob(jobs0, wordbatch, texts, w)
    ensures InLists(jobs, wordbatch, texts) && jobs == jobs0 + [GenRes(length, start, end)]
    ensures forall w <- ListedDocs(wordbatch, texts, length)[..end] :: InSomeJob(jobs, wordbatch, texts, w)
  {
    var job := GenRes(length, start, end);
    jobs := jobs0 + [job];
    ghost var list := ListedDocs(wordbatch, texts, length);
    assert list[..end] == list[..start] + list[start..end];
    forall w | w in list[..end] ensures InSomeJob(jobs, wordbatch, texts, w) {
      if w in list[..start] {
        InMoreJobs(jobs0, jobs, wordbatch, texts, w);
      } else {
        assert InJob(job, wordbatch, texts, w) && job in jobs;
      }
    }
  }

  lemma InMoreJobs(jobs: seq<GenRes>, jobs': seq<GenRes>, wordbatch: seq<nat>, texts: seq<Word>, w: nat)
    requires jobs <= jobs' && InSomeJob(jobs, wordbatch, texts, w)
    ensures InSomeJob(jobs', wordbatch, texts, w)
  {
    var job :| job in jobs && InJob(job, wordbatch, texts, w);
    assert job in jobs';
  }

  /** The jobs of all lengths: every word of the batch is in the range of one. */
  method AllRanges(wordbatch: seq<nat>, texts: seq<Word>, batchQtokens: nat -> nat) returns (jobs: seq<GenRes>)
    requires AllTokens(texts) && forall w <- wordbatch :: w < |texts|
    ensures InLists(jobs, wordbatch, texts)
    ensures forall w <- wordbatch :: InSomeJob(jobs, wordbatch, texts, w)
  {
    jobs := [];
    for length := MIN_WORD_LENGTH to MAX_WORD_LENGTH + 1
      invariant InLists(jobs, wordbatch, texts)
      invariant forall w <- wordbatch :: |texts[w]| < length ==> InSomeJob(jobs, wordbatch, texts, w)
    {
      ghost var before := jobs;
      jobs := PushRanges(jobs, wordbatch, texts, length, batchQtokens(length));
      forall w | w in wordbatch && |texts[w]| < length + 1 ensures InSomeJob(jobs, wordbatch, texts, w) {
        if |texts[w]| < length {
          InMoreJobs(before, jobs, wordbatch, texts, w);
        } else {
          ListedDocsHolds(wordbatch, texts, length, w);
        }
      }
    }
  }

  /** `GenerateRes` on one range. */
  method RunRange(area: BitArea, manager: TokenManager, entries: seq<Entry>, list: seq<nat>, start: nat, end: nat,
                  ghost words: set<nat>)
    requires manager.Valid() && Markable(manager.view, entries, area.ndocs, area.size)
    requires Shown(area, manager.view, entries, words) && start <= end <= |list|
    modifies area.token
    ensures Shown(area, manager.view, entries, words + AsSet(list[start..end])) && manager.Valid()
  {
    hide TokenManager.Valid, Markable, Shown;
    ghost var done := {};
    assert words + done == words;
    for x := start to end
      invariant manager.Valid() && done == AsSet(list[start..x])
      invariant Shown(area, manager.view, entries, words + done)
    {
      MarkWord(area, manager, entries, list[x], words + done);
      assert list[start..x + 1] == list[start..x] + [list[x]];
      assert words + done + {list[x]} == words + (done + {list[x]});
      done := done + {list[x]};
    }
  }

  /** All jobs, each taken from anywhere in what is left: in the end the hits of all words are shown. */
  method MarkAll(area: BitArea, manager: TokenManager, entries: seq<Entry>, wordbatch: seq<nat>, texts: seq<Word>,
                 all: seq<GenRes>)
    requires manager.Valid() && Markable(manager.view, entries, area.ndocs, area.size) && texts == manager.view.texts
    requires InLists(all, wordbatch, texts) && forall w <- wordbatch ::
             w < |texts| && InSomeJob(all, wordbatch, texts, w)
    requires Shown(area, manager.view, entries, {})
    modifies area.token
    ensures Shown(area, manager.view, entries, AsSet(wordbatch))
  {
    hide TokenManager.Valid, Markable, Shown;
    var jobs := all;
    ghost var done := {};
    while jobs != []
      invariant manager.Valid() && InLists(jobs, wordbatch, texts)
      invariant Shown(area, manager.view, entries, done)
      invariant forall w <- done :: w in wordbatch
      invariant forall w <- wordbatch :: w in done || InSomeJob(jobs, wordbatch, texts, w)
      decreases |jobs|
    {
      var k :| 0 <= k < |jobs|;
      var job := jobs[k];
      assert job in jobs;
      var list := ListedDocs(wordbatch, texts, job.length);
      RunRange(area, manager, entries, list, job.start, job.end, done);
      JobTaken(jobs, k, wordbatch, texts, done);
      done := done + AsSet(list[job.start..job.end]);
      jobs := jobs[..k] + jobs[k + 1..];
    }
    assert done == AsSet(wordbatch);
  }

  lemma JobTaken(jobs: seq<GenRes>, k: nat, wordbatch: seq<nat>, texts: seq<Word>, done: set<nat>)
    requires k < |jobs| && InLists(jobs, wordbatch, texts)
    requires forall w <- done :: w in wordbatch
    requires forall w <- wordbatch :: w in done || InSomeJob(jobs, wordbatch, texts, w)
    ensures var list := ListedDocs(wordbatch, texts, jobs[k].length);
            var rest := jobs[..k] + jobs[k + 1..];
            && jobs[k].start <= jobs[k].end <= |list| && InLists(rest, wordbatch, texts)
            && (forall w <- list[jobs[k].start..jobs[k].end] :: w in wordbatch)
            && (forall w <- wordbatch ::
                w in done || w in list[jobs[k].start..jobs[k].end] || InSomeJob(rest, wordbatch, texts, w))
  {
    assert jobs[k] in jobs;
    var list := ListedDocs(wordbatch, texts, jobs[k].length);
    var rest := jobs[..k] + jobs[k + 1..];
    assert jobs == jobs[..k] + [jobs[k]] + jobs[k + 1..];
    forall w | w in list[jobs[k].start..jobs[k].end] ensures w in wordbatch {
      ListedDocsHolds(wordbatch, texts, jobs[k].length, w);
    }
    forall w | w in wordbatch && w !in done && w !in list[jobs[k].start..jobs[k].end]
        ensures InSomeJob(rest, wordbatch, texts, w) {
      var job :| job in jobs && InJob(job, wordbatch, texts, w);
      assert job in rest;
    }
  }
}
