/** Handing out pod indexes: committed before the pods are created, rolled back if all of them failed. */
module PodIndex {

  // ----- concurrent creation -----

  /** The pods are created concurrently and share one error variable: a creation first assigns its outcome to
      it, then looks whether it holds an error, and if so, in yet another step, records what it holds by then. */
  datatype Step = Finish(i: nat) | Check(i: nat) | Record(i: nat)

  /** One order in which the steps of n creations may interleave. */
  ghost predicate Interleaving(ss: seq<Step>, n: nat)
  {
    WithinRange(ss, n) &&
    (forall j, k | 0 <= j < k < |ss| :: ss[j] != ss[k]) &&
    forall i: nat | i < n :: Runs(ss, i)
  }

  ghost predicate Runs(ss: seq<Step>, i: nat)
  {
    exists j, m, k :: 0 <= j < m < k < |ss| && ss[j] == Finish(i) && ss[m] == Check(i) && ss[k] == Record(i)
  }

  predicate WithinRange(ss: seq<Step>, n: nat)
  {
    forall k | 0 <= k < |ss| :: ss[k].i < n
  }

  /** Whether the shared variable holds an error after the steps. */
  predicate SharedError(fails: seq<bool>, ss: seq<Step>)
    requires WithinRange(ss, |fails|)
  {
    ss != [] &&
    match ss[|ss| - 1]
    case Finish(i) => fails[i]
    case _ => SharedError(fails, ss[..|ss| - 1])
  }

  /** Whether a creation has found an error when it looked. */
  predicate Saw(fails: seq<bool>, ss: seq<Step>, i: nat)
    requires WithinRange(ss, |fails|)
  {
    ss != [] && (Saw(fails, ss[..|ss| - 1], i) || (ss[|ss| - 1] == Check(i) && SharedError(fails, ss[..|ss| - 1])))
  }

  /** Whether a creation has recorded an error after the steps. */
  predicate Recorded(fails: seq<bool>, ss: seq<Step>, i: nat)
    requires WithinRange(ss, |fails|)
  {
    ss != [] &&
    (Recorded(fails, ss[..|ss| - 1], i) ||
     (ss[|ss| - 1] == Record(i) && Saw(fails, ss[..|ss| - 1], i) && SharedError(fails, ss[..|ss| - 1])))
  }

  ghost predicate SeesAndRecords(fails: seq<bool>, ss: seq<Step>, i: nat, m: nat, k: nat)
    requires WithinRange(ss, |fails|)
  {
    m < k < |ss| && ss[m] == Check(i) && ss[k] == Record(i) && SharedError(fails, ss[..m]) && SharedError(fails, ss[..k])
  }

  lemma {:induction false} SawExactly(fails: seq<bool>, ss: seq<Step>, i: nat)
    requires WithinRange(ss, |fails|)
    ensures Saw(fails, ss, i) <==> exists m :: 0 <= m < |ss| && ss[m] == Check(i) && SharedError(fails, ss[..m])
  {
    if ss != [] {
      var less := ss[..|ss| - 1];
      SawExactly(fails, less, i);
      assert forall m | 0 <= m <= |less| :: less[..m] == ss[..m];
      hide SharedError;
    }
  }

  /** A creation has recorded an error exactly if it found one when it looked and again, later, when it recorded. */
  lemma {:induction false} RecordedExactly(fails: seq<bool>, ss: seq<Step>, i: nat)
    requires WithinRange(ss, |fails|)
    ensures Recorded(fails, ss, i) <==> exists m: nat, k: nat :: SeesAndRecords(fails, ss, i, m, k)
  {
    if ss != [] {
      var last := |ss| - 1;
      var less := ss[..last];
      RecordedExactly(fails, less, i);
      SawExactly(fails, less, i);
      assert forall m | 0 <= m <= |less| :: less[..m] == ss[..m];
      hide SharedError, Saw;
      if m: nat, k: nat :| SeesAndRecords(fails, less, i, m, k) {
        assert SeesAndRecords(fails, ss, i, m, k);
      }
      if m: nat, k: nat :| SeesAndRecords(fails, ss, i, m, k) {
        if k < last {
          assert SeesAndRecords(fails, less, i, m, k);
        } else {
          assert less[m] == Check(i) && SharedError(fails, less[..m]);
        }
      }
      if ss[last] == Record(i) && SharedError(fails, less) && Saw(fails, less, i) {
        var m :| 0 <= m < |less| && less[m] == Check(i) && SharedError(fails, less[..m]);
        assert SeesAndRecords(fails, ss, i, m, last);
      }
    }
  }

  /** The shared variable holds what the creation that finished last has left. */
  lemma {:induction false} SharedExactly(fails: seq<bool>, ss: seq<Step>)
    requires WithinRange(ss, |fails|)
    ensures SharedError(fails, ss) <==>
            exists j :: 0 <= j < |ss| && ss[j].Finish? && fails[ss[j].i] && forall k | j < k < |ss| :: !ss[k].Finish?
  {
    if ss != [] {
      SharedExactly(fails, ss[..|ss| - 1]);
    }
  }

  predicate AllRecorded(fails: seq<bool>, ss: seq<Step>)
    requires WithinRange(ss, |fails|)
  {
    forall i | 0 <= i < |fails| :: Recorded(fails, ss, i)
  }

  lemma {:induction false} SharedFrom(fails: seq<bool>, ss: seq<Step>, f: bool)
    requires WithinRange(ss, |fails|) && forall i | 0 <= i < |fails| :: fails[i] == f
    ensures SharedError(fails, ss) == (f && exists j :: 0 <= j < |ss| && ss[j].Finish?)
  {
    if ss != [] && !ss[|ss| - 1].Finish? {
      SharedFrom(fails, ss[..|ss| - 1], f);
      assert forall j | 0 <= j < |ss| - 1 :: ss[..|ss| - 1][j] == ss[j];
    }
  }

  lemma {:induction false} RecordedLater(fails: seq<bool>, ss: seq<Step>, k: nat, i: nat)
    requires WithinRange(ss, |fails|) && k <= |ss| && Recorded(fails, ss[..k], i)
    ensures Recorded(fails, ss, i)
  {
    if k < |ss| {
      assert ss[..|ss| - 1][..k] == ss[..k];
      RecordedLater(fails, ss[..|ss| - 1], k, i);
    } else {
      assert ss[..k] == ss;
    }
  }

  /** Once a creation has finished in error the shared variable keeps an error if all fail. */
  lemma ErrorStays(fails: seq<bool>, ss: seq<Step>, j: nat, k: nat)
    requires WithinRange(ss, |fails|) && j < k < |ss| && ss[j].Finish? && forall i | 0 <= i < |fails| :: fails[i]
    ensures SharedError(fails, ss[..k])
  {
    SharedFrom(fails, ss[..k], true);
    assert ss[..k][j] == ss[j];
  }

  lemma ErrorTaken(fails: seq<bool>, ss: seq<Step>, k: nat, i: nat)
    requires WithinRange(ss, |fails|) && k < |ss| && SharedError(fails, ss[..k])
    ensures ss[k] == Check(i) ==> Saw(fails, ss[..k + 1], i)
    ensures ss[k] == Record(i) && Saw(fails, ss[..k], i) ==> Recorded(fails, ss[..k + 1], i)
  {
    var more := ss[..k + 1];
    assert more[..k] == ss[..k];
  }

  lemma {:induction false} SawLater(fails: seq<bool>, ss: seq<Step>, m: nat, k: nat, i: nat)
    requires WithinRange(ss, |fails|) && m <= k <= |ss| && Saw(fails, ss[..m], i)
    ensures Saw(fails, ss[..k], i)
  {
    if m < k {
      SawLater(fails, ss, m, k - 1, i);
      var more := ss[..k];
      assert more[..k - 1] == ss[..k - 1];
    }
  }

  lemma FailureRecorded(fails: seq<bool>, ss: seq<Step>, j: nat, m: nat, k: nat, i: nat)
    requires WithinRange(ss, |fails|) && forall x | 0 <= x < |fails| :: fails[x]
    requires j < m < k < |ss| && ss[j] == Finish(i) && ss[m] == Check(i) && ss[k] == Record(i)
    ensures Recorded(fails, ss, i)
  {
    hide SharedError, Saw, Recorded;
    ErrorStays(fails, ss, j, m);
    ErrorTaken(fails, ss, m, i);
    SawLater(fails, ss, m + 1, k, i);
    ErrorStays(fails, ss, j, k);
    ErrorTaken(fails, ss, k, i);
    RecordedLater(fails, ss, k + 1, i);
  }

  /** Creations that all end alike are recorded truthfully, however they interleave. */
  lemma {:induction false} AlikeRecorded(fails: seq<bool>, ss: seq<Step>, f: bool, i: nat)
    requires Interleaving(ss, |fails|) && i < |fails| && forall j | 0 <= j < |fails| :: fails[j] == f
    ensures Recorded(fails, ss, i) == f
  {
    if f {
      assert Runs(ss, i);
      var j, m, k :| 0 <= j < m < k < |ss| && ss[j] == Finish(i) && ss[m] == Check(i) && ss[k] == Record(i);
      hide Recorded;
      FailureRecorded(fails, ss, j, m, k, i);
    } else {
      NoneRecorded(fails, ss, i);
    }
  }

  lemma {:induction false} NoneRecorded(fails: seq<bool>, ss: seq<Step>, i: nat)
    requires WithinRange(ss, |fails|) && forall j | 0 <= j < |fails| :: !fails[j]
    ensures !Recorded(fails, ss, i)
  {
    if ss != [] {
      NoneRecorded(fails, ss[..|ss| - 1], i);
      SharedFrom(fails, ss[..|ss| - 1], false);
    }
  }

  /** Everybody finishes, the given creation last, before anybody looks, and everybody looks before anybody
      records. */
  function LastToFinish(n: nat, last: nat): (ss: seq<Step>)
    requires last < n
    ensures |ss| == 3 * n
  {
    seq(3 * n, k requires 0 <= k < 3 * n =>
      if k < last then Finish(k) else if k < n - 1 then Finish(k + 1) else if k == n - 1 then Finish(last)
      else if k < 2 * n then Check(k - n) else Record(k - 2 * n))
  }

  lemma LastToFinishInterleaves(n: nat, last: nat)
    requires last < n
    ensures Interleaving(LastToFinish(n, last), n)
  {
    var ss := LastToFinish(n, last);
    forall i: nat | i < n ensures Runs(ss, i) {
      var j := if i < last then i else if i == last then n - 1 else i - 1;
      assert ss[j] == Finish(i) && ss[n + i] == Check(i) && ss[2 * n + i] == Record(i);
    }
  }

  /** When everybody has finished, everybody sees and records what the last one left. */
  lemma {:induction false} LastDecides(fails: seq<bool>, last: nat, k: nat, i: nat)
    requires last < |fails| <= k <= 3 * |fails| && i < |fails|
    ensures var ss := LastToFinish(|fails|, last);
            WithinRange(ss, |fails|) && WithinRange(ss[..k], |fails|) && SharedError(fails, ss[..k]) == fails[last] &&
            (i < k - |fails| ==> Saw(fails, ss[..k], i) == fails[last]) &&
            (i < k - 2 * |fails| ==> Recorded(fails, ss[..k], i) == fails[last]) &&
            (!fails[last] ==> !Saw(fails, ss[..k], i) && !Recorded(fails, ss[..k], i))
  {
    var n, ss := |fails|, LastToFinish(|fails|, last);
    assert WithinRange(ss, n) && WithinRange(ss[..k], n);
    assert ss[..k][..k - 1] == ss[..k - 1];
    if k > n {
      LastDecides(fails, last, k - 1, i);
      assert ss[k - 1] == if k <= 2 * n then Check(k - 1 - n) else Record(k - 1 - 2 * n);
    } else {
      FinishOnly(fails, ss[..k], i);
      assert ss[n - 1] == Finish(last);
    }
  }

  lemma {:induction false} FinishOnly(fails: seq<bool>, ss: seq<Step>, i: nat)
    requires WithinRange(ss, |fails|) && forall k | 0 <= k < |ss| :: ss[k].Finish?
    ensures !Saw(fails, ss, i) && !Recorded(fails, ss, i)
  {
    if ss != [] {
      FinishOnly(fails, ss[..|ss| - 1], i);
    }
  }

  /** All creations end alike. */
  predicate Alike(fails: seq<bool>)
  {
    (forall i | 0 <= i < |fails| :: fails[i]) || (forall i | 0 <= i < |fails| :: !fails[i])
  }

  ghost predicate Truthful(fails: seq<bool>, ss: seq<Step>)
    requires WithinRange(ss, |fails|)
  {
    forall i | 0 <= i < |fails| :: Recorded(fails, ss, i) == fails[i]
  }

  /** What is recorded is what happened under every interleaving exactly if all creations end alike. As soon as
      one fails and another does not, each of them can be taken for the other. */
  lemma TruthfulIff(fails: seq<bool>)
    ensures (forall ss | Interleaving(ss, |fails|) :: Truthful(fails, ss)) <==> Alike(fails)
  {
    if Alike(fails) {
      forall ss | Interleaving(ss, |fails|) ensures Truthful(fails, ss) {
        forall i | 0 <= i < |fails| ensures Recorded(fails, ss, i) == fails[i] {
          AlikeRecorded(fails, ss, fails[0], i);
        }
      }
    } else {
      var good :| 0 <= good < |fails| && !fails[good];
      var bad :| 0 <= bad < |fails| && fails[bad];
      var ss := LastToFinish(|fails|, bad);
      LastToFinishInterleaves(|fails|, bad);
      LastDecides(fails, bad, 3 * |fails|, good);
      assert ss[..3 * |fails|] == ss;
      assert Recorded(fails, ss, good) != fails[good];
    }
  }

  /** A rollback under which something was created after all. */
  predicate FalseRollback(fails: seq<bool>, ss: seq<Step>)
    requires WithinRange(ss, |fails|)
  {
    AllRecorded(fails, ss) && exists i :: 0 <= i < |fails| && !fails[i]
  }

  /** No interleaving rolls a success back exactly if all creations end alike. */
  lemma NoFalseRollbackIff(fails: seq<bool>)
    ensures (forall ss | Interleaving(ss, |fails|) :: !FalseRollback(fails, ss)) <==> Alike(fails)
  {
    if Alike(fails) {
      TruthfulIff(fails);
      forall ss | Interleaving(ss, |fails|) ensures !FalseRollback(fails, ss) {
        assert Truthful(fails, ss);
      }
    } else {
      var good :| 0 <= good < |fails| && !fails[good];
      var bad :| 0 <= bad < |fails| && fails[bad];
      var ss := LastToFinish(|fails|, bad);
      LastToFinishInterleaves(|fails|, bad);
      assert ss[..3 * |fails|] == ss;
      forall i | 0 <= i < |fails| ensures Recorded(fails, ss, i) {
        LastDecides(fails, bad, 3 * |fails|, i);
      }
      assert FalseRollback(fails, ss);
    }
  }

  // ----- calls -----

  /** The persisted index and the indexes of all pods that were ever successfully created. */
  datatype World = World(index: nat, created: seq<nat>)

  /** How far a call gets. */
  datatype Progress =
    | IndexNotRead
    | IndexNotWritten        // the commit failed
    | CommitReplyLost        // the commit took effect but was reported as failed
    | NoMember               // a member could not be described
    | Crashed                // the operator went down before the creations were looked at
    | Finished(rolledBack: bool)  // whether a rollback, if there is one, takes effect

  datatype Attempt = Attempt(fails: seq<bool>, steps: seq<Step>, progress: Progress)

  type Call = a: Attempt | WithinRange(a.steps, |a.fails|) witness Attempt([], [], IndexNotRead)

  ghost predicate Legal(c: Call)
  {
    c.fails != [] && Interleaving(c.steps, |c.fails|)
  }

  /** The indexes, from a start on, of the creations that succeed. */
  function CreatedFrom(start: nat, fails: seq<bool>): (r: seq<nat>)
  {
    if fails == [] then []
    else
      var n := |fails| - 1;
      CreatedFrom(start, fails[..n]) + (if fails[n] then [] else [start + n])
  }

  function After(w: World, c: Call): World
  {
    var next := w.index + |c.fails|;
    match c.progress
    case IndexNotRead => w
    case IndexNotWritten => w
    case CommitReplyLost => w.(index := next)
    case NoMember => w.(index := next)
    case Crashed => World(next, w.created + CreatedFrom(w.index, c.fails))
    case Finished(rolledBack) =>
      World(if AllRecorded(c.fails, c.steps) && rolledBack then w.index else next, w.created + CreatedFrom(w.index, c.fails))
  }

  /** No index was used twice, and none that was used will be handed out again. */
  ghost predicate Apart(w: World)
  {
    Distinct(w.created) && Between(w.created, 0, w.index)
  }

  ghost predicate Distinct(s: seq<nat>)
  {
    forall i, j | 0 <= i < j < |s| :: s[i] != s[j]
  }

  ghost predicate Between(s: seq<nat>, low: nat, high: nat)
  {
    forall i | 0 <= i < |s| :: low <= s[i] < high
  }

  lemma {:induction false} CreatedInRange(start: nat, fails: seq<bool>)
    ensures Between(CreatedFrom(start, fails), start, start + |fails|) && Distinct(CreatedFrom(start, fails))
  {
    if fails != [] {
      var n := |fails| - 1;
      CreatedInRange(start, fails[..n]);
      OneMoreInRange(CreatedFrom(start, fails[..n]), start, start + n);
    }
  }

  lemma OneMoreInRange(s: seq<nat>, low: nat, high: nat)
    requires Between(s, low, high) && Distinct(s) && low <= high
    ensures Between(s, low, high + 1) && Between(s + [high], low, high + 1) && Distinct(s + [high])
  {}

  predicate AllFail(fails: seq<bool>)
  {
    forall i | 0 <= i < |fails| :: fails[i]
  }

  lemma AllFailStep(fails: seq<bool>)
    requires fails != []
    ensures AllFail(fails) <==> AllFail(fails[..|fails| - 1]) && fails[|fails| - 1]
  {
    var n := |fails| - 1;
    assert forall i | 0 <= i < n :: fails[..n][i] == fails[i];
  }

  lemma {:induction false} NoneCreated(start: nat, fails: seq<bool>)
    ensures CreatedFrom(start, fails) == [] <==> AllFail(fails)
  {
    hide AllFail;
    if fails != [] {
      NoneCreated(start, fails[..|fails| - 1]);
      AllFailStep(fails);
    } else {
      assert AllFail(fails) by {
        NoFails(fails);
      }
    }
  }

  lemma NoFails(fails: seq<bool>)
    requires fails == []
    ensures AllFail(fails)
  {}

  predicate Harmful(c: Call)
  {
    c.progress == Finished(true) && FalseRollback(c.fails, c.steps)
  }

  /** A call keeps indexes apart exactly if it does not take back the index of a pod it created, wherever it
      stops and whatever its writes do. */
  lemma CallKeepsApartIff(w: World, c: Call)
    requires Apart(w) && Legal(c)
    ensures Apart(After(w, c)) <==> !Harmful(c)
  {
    CreatedInRange(w.index, c.fails);
    NoneCreated(w.index, c.fails);
    hide CreatedFrom, Recorded, AllRecorded, SharedError, Saw;
    assert FalseRollback(c.fails, c.steps) <==> AllRecorded(c.fails, c.steps) && !AllFail(c.fails);
    hide FalseRollback, AllFail, Interleaving, Apart, Between, Distinct;
    var made := CreatedFrom(w.index, c.fails);
    CreatedApart(w, made, w.index + |c.fails|);
    if made == [] {
      assert w.created + made == w.created;
    } else {
      TakenBack(w, made, w.index + |c.fails|);
    }
  }

  lemma TakenBack(w: World, made: seq<nat>, next: nat)
    requires made != [] && Between(made, w.index, next)
    ensures !Apart(World(w.index, w.created + made))
  {
    assert (w.created + made)[|w.created|] == made[0];
  }

  lemma CreatedApart(w: World, made: seq<nat>, next: nat)
    requires Apart(w) && Between(made, w.index, next) && Distinct(made) && w.index <= next
    ensures Apart(World(next, w.created + made)) && Apart(World(next, w.created))
  {}

  function AfterAll(w: World, cs: seq<Call>): World
  {
    if cs == [] then w else After(AfterAll(w, cs[..|cs| - 1]), cs[|cs| - 1])
  }

  /** Over any run of calls in which no call takes back the index of a pod it created, no two pods share an index
      and the persisted index is beyond all of them. */
  lemma {:induction false} RunsKeepApart(w: World, cs: seq<Call>)
    requires Apart(w) && forall k | 0 <= k < |cs| :: Legal(cs[k]) && !Harmful(cs[k])
    ensures Apart(AfterAll(w, cs))
  {
    if cs != [] {
      RunsKeepApart(w, cs[..|cs| - 1]);
      CallKeepsApartIff(AfterAll(w, cs[..|cs| - 1]), cs[|cs| - 1]);
    }
  }

  /** Calls whose creations end alike, in particular calls for a single pod, are never harmful. */
  lemma AlikeHarmless(c: Call)
    requires Legal(c) && Alike(c.fails)
    ensures !Harmful(c)
  {
    NoFalseRollbackIff(c.fails);
  }

  /** Calls for a number of pods are harmless however they turn out if and only if the number is one. */
  lemma HarmlessSizeIff(n: nat)
    requires n > 0
    ensures (forall c: Call | Legal(c) && |c.fails| == n :: !Harmful(c)) <==> n == 1
  {
    if n == 1 {
      forall c: Call | Legal(c) && |c.fails| == n ensures !Harmful(c) {
        AlikeHarmless(c);
      }
    } else {
      assert Harmful(HarmfulCall(n)) && Legal(HarmfulCall(n)) && |HarmfulCall(n).fails| == n;
    }
  }

  /** All pods but the last are created, and the failure of the last arrives last. */
  ghost function HarmfulCall(n: nat): (c: Call)
    requires n > 1
    ensures Legal(c) && |c.fails| == n && Harmful(c)
  {
    var fails := seq(n, i => i == n - 1);
    var ss := LastToFinish(n, n - 1);
    LastToFinishInterleaves(n, n - 1);
    assert ss[..3 * n] == ss;
    assert forall i | 0 <= i < n :: Recorded(fails, ss, i) by {
      forall i | 0 <= i < n ensures Recorded(fails, ss, i) {
        LastDecides(fails, n - 1, 3 * n, i);
      }
    }
    assert !fails[0];
    Attempt(fails, ss, Finished(true))
  }

  lemma NothingApart()
    ensures Apart(World(0, []))
  {}

  /** Runs of calls for a number of pods each. */
  ghost predicate RunsOf(n: nat, cs: seq<Call>)
  {
    forall k | 0 <= k < |cs| :: Legal(cs[k]) && |cs[k].fails| == n
  }

  /** Runs of calls for a given number of pods keep indexes unique, and the persisted one beyond them, however the
      calls turn out, interleave and stop, if and only if every call is for a single pod. */
  lemma RunsKeepApartIff(n: nat)
    requires n > 0
    ensures (forall w, cs | Apart(w) && RunsOf(n, cs) :: Apart(AfterAll(w, cs))) <==> n == 1
  {
    hide Recorded, AllRecorded, FalseRollback, Harmful, Interleaving, CreatedFrom, Apart, After;
    HarmlessSizeIff(n);
    if n == 1 {
      forall w, cs | Apart(w) && RunsOf(n, cs) ensures Apart(AfterAll(w, cs)) {
        RunsKeepApart(w, cs);
      }
    } else {
      var w, c := World(0, []), HarmfulCall(n);
      NothingApart();
      CallKeepsApartIff(w, c);
      var cs: seq<Call> := [c];
      assert cs[..0] == [];
      assert AfterAll(w, cs[..0]) == w;
      assert AfterAll(w, cs) == After(w, c);
      assert Apart(w) && RunsOf(n, cs) && !Apart(AfterAll(w, cs));
    }
  }

  lemma SuccessTakenBack() returns (c: Call)
    ensures Legal(c) && After(World(0, []), c) == World(0, [0])
  {
    c := Attempt([false, true], LastToFinish(2, 1), Finished(true));
    LastToFinishInterleaves(2, 1);
    LastDecides([false, true], 1, 6, 0);
    LastDecides([false, true], 1, 6, 1);
    assert c.steps[..6] == c.steps;
    hide Recorded, Saw, SharedError, Interleaving, LastToFinish;
    assert AllRecorded([false, true], c.steps);
    OneCreated([false, true]);
  }

  lemma OneCreated(fails: seq<bool>)
    requires fails == [false, true] || fails == [false]
    ensures CreatedFrom(0, fails) == [0]
  {
    assert [false][..0] == [] && CreatedFrom(0, []) == [];
    assert CreatedFrom(0, [false]) == [0];
    assert [false, true][..1] == [false];
  }

  lemma LoneSuccess() returns (c: Call)
    ensures Legal(c) && After(World(0, [0]), c).created == [0, 0]
  {
    c := Attempt([false], LastToFinish(1, 0), Finished(true));
    LastToFinishInterleaves(1, 0);
    hide Recorded, Saw, SharedError, Interleaving, LastToFinish, AllRecorded;
    OneCreated([false]);
  }

  /** Two pods, one created and one not, with the failure arriving last: both are taken for failures, the index
      is rolled back, and the next pod gets the index of the one that was created. */
  lemma IndexUsedTwice() returns (cs: seq<Call>)
    ensures forall k | 0 <= k < |cs| :: Legal(cs[k])
    ensures AfterAll(World(0, []), cs).created == [0, 0]
  {
    hide Legal, After;
    var first := SuccessTakenBack();
    var second := LoneSuccess();
    cs := [first, second];
    assert cs[..1] == [first] && [first][..0] == [];
    assert AfterAll(World(0, []), []) == World(0, []);
    assert AfterAll(World(0, []), [first]) == World(0, [0]);
  }

  // ----- the code -----

  class Cluster {
    var podIndex: nat
    var created: seq<nat>

    function State(): World
      reads this
    {
      World(podIndex, created)
    }

    /** Takes the next indexes and commits that they are taken. */
    method GetAvailableIndexes(num: nat, progress: Progress) returns (ok: bool, indexes: seq<nat>)
      modifies `podIndex
      ensures ok <==> num == 0 || !(progress.IndexNotRead? || progress.IndexNotWritten? || progress.CommitReplyLost?)
      ensures ok ==> |indexes| == num && forall i | 0 <= i < num :: indexes[i] == old(podIndex) + i
      ensures podIndex == if num == 0 || progress.IndexNotRead? || progress.IndexNotWritten? then old(podIndex) else old(podIndex) + num
    {
      indexes := [];
      if num == 0 {
        return true, [];
      }
      if progress.IndexNotRead? {
        return false, [];
      }
      for i := 0 to num
        invariant |indexes| == i && forall j | 0 <= j < i :: indexes[j] == podIndex + j
      {
        indexes := indexes + [podIndex + i];
      }
      if progress.IndexNotWritten? {
        return false, [];
      }
      podIndex := indexes[|indexes| - 1] + 1;
      return !progress.CommitReplyLost?, indexes;
    }

    /** Creates members concurrently under new indexes and rolls the index back if all are recorded as failed.
        There must be at least one member to create. */
    method CreateMembers(c: Call)
      requires Legal(c)
      modifies this
      ensures State() == After(old(State()), c)
    {
      var ok, indexes := GetAvailableIndexes(|c.fails|, c.progress);
      if !ok || c.progress.NoMember? {
        return;
      }
      for i := 0 to |c.fails|
        invariant podIndex == old(podIndex) + |c.fails|
        invariant created == old(created) + CreatedFrom(old(podIndex), c.fails[..i])
      {
        assert c.fails[..i + 1][..i] == c.fails[..i];
        if !c.fails[i] {
          created := created + [indexes[i]];
        }
      }
      assert c.fails[..|c.fails|] == c.fails;
      if c.progress.Crashed? {
        return;
      }
      var recorded := RecordOutcomes(c);
      var allErr := true;
      for i := 0 to |recorded|
        invariant allErr <==> forall j | 0 <= j < i :: recorded[j]
      {
        if !recorded[i] {
          allErr := false;
        }
      }
      if allErr && c.progress.rolledBack {
        podIndex := indexes[0];
      }
    }

    /** The creations take their steps, through the one error variable they share. */
    method RecordOutcomes(c: Call) returns (recorded: seq<bool>)
      requires Legal(c)
      ensures |recorded| == |c.fails| && forall i | 0 <= i < |recorded| :: recorded[i] == Recorded(c.fails, c.steps, i)
    {
      recorded := seq(|c.fails|, _ => false);
      var saw := recorded;
      var err := false;
      for k := 0 to |c.steps|
        invariant |recorded| == |saw| == |c.fails|
        invariant err == SharedError(c.fails, c.steps[..k])
        invariant forall i | 0 <= i < |saw| :: saw[i] == Saw(c.fails, c.steps[..k], i)
        invariant forall i | 0 <= i < |recorded| :: recorded[i] == Recorded(c.fails, c.steps[..k], i)
      {
        assert c.steps[..k + 1][..k] == c.steps[..k];
        match c.steps[k]
        case Finish(i) => err := c.fails[i];
        case Check(i) =>
          if err {
            saw := saw[i := true];
          }
        case Record(i) =>
          if saw[i] && err {
            recorded := recorded[i := true];
          }
      }
      assert c.steps[..|c.steps|] == c.steps;
    }
  }
}
