/** The audit log: one active file and up to five archives, shifted when the active file is full. */
module AuditLog {
  import opened Wrappers

  datatype Event = Event(line: string)

  const MAX_ROTATED_FILES := 5

  /** A file that is there holds one event per line. */
  type File = Option<seq<Event>>

  /** The active file, and then the archives from the newest to the oldest. */
  type Files = files: seq<File> | |files| == MAX_ROTATED_FILES + 1 witness seq(6, _ => None)

  function Lines(file: File): seq<Event> { if file.Some? then file.value else [] }

  /** What the files hold, the last file first. */
  function Content(files: seq<File>): seq<Event> {
    if files == [] then [] else Content(files[1..]) + Lines(files[0])
  }

  function Empty(): Files { seq(MAX_ROTATED_FILES + 1, _ => None) }

  function Appended(files: Files, e: Event): Files { files[0 := Some(Lines(files[0]) + [e])] }

  /** Every file one place older; the oldest is gone and there is no active file. */
  function Shifted(files: Files): Files { [None] + files[..MAX_ROTATED_FILES] }

  predicate Full(files: Files, maxEntries: nat) { maxEntries > 0 && |Lines(files[0])| >= maxEntries }

  function AppendedAndRotated(files: Files, e: Event, maxEntries: nat): Files {
    var appended := Appended(files, e);
    if Full(appended, maxEntries) then Shifted(appended) else appended
  }

  lemma {:induction false} ContentConcat(newer: seq<File>, older: seq<File>)
    ensures Content(newer + older) == Content(older) + Content(newer)
  {
    if newer == [] {
      assert newer + older == older;
    } else {
      ContentConcat(newer[1..], older);
      assert (newer + older)[1..] == newer[1..] + older;
    }
  }

  lemma ContentOfOldest(files: seq<File>, n: nat)
    requires n < |files|
    ensures Content(files[..n + 1]) == Lines(files[n]) + Content(files[..n])
  {
    var oldest := [files[n]];
    ContentConcat(files[..n], oldest);
    assert files[..n + 1] == files[..n] + oldest;
    assert oldest[1..] == [];
    assert Content(oldest) == Lines(files[n]);
  }

  lemma ReadStep(files: seq<File>, n: nat, whole: seq<Event>, events: seq<Event>)
    requires n < |files| && whole == events + Content(files[..n + 1])
    ensures whole == events + Lines(files[n]) + Content(files[..n])
  {
    ContentOfOldest(files, n);
  }

  class LogDirectory {
    var files: Files

    constructor ()
      ensures files == Empty()
    {
      files := Empty();
    }

    method AppendEvent(e: Event)
      modifies this
      ensures files == Appended(old(files), e)
    {
      files := files[0 := Some((if files[0].Some? then files[0].value else []) + [e])];
    }

    /** A rename, which would silently replace a file at `dst`. */
    method Rename(src: nat, dst: nat)
      requires src < |files| && dst < |files| && files[src].Some? && files[dst].None?
      modifies this
      ensures files == old(files)[dst := old(files)[src]][src := None]
    {
      files := files[dst := files[src]][src := None];
    }

    /** Shifts the files if the active one is full. No rename finds a file in its way. */
    method RotateIfNeeded(maxEntries: nat) returns (rotated: bool)
      modifies this
      ensures rotated == Full(old(files), maxEntries)
      ensures files == if rotated then Shifted(old(files)) else old(files)
    {
      if maxEntries == 0 || |Lines(files[0])| < maxEntries {
        return false;
      }
      var i := MAX_ROTATED_FILES;
      while i >= 1
        invariant 0 <= i <= MAX_ROTATED_FILES
        invariant i < MAX_ROTATED_FILES ==> files[i + 1].None?
        invariant forall j | 0 <= j <= i :: files[j] == old(files)[j]
        invariant forall j | i + 1 < j < |files| :: files[j] == old(files)[j - 1]
      {
        if i == MAX_ROTATED_FILES {
          files := files[i := None];
        } else if files[i].Some? {
          Rename(i, i + 1);
        }
        i := i - 1;
      }
      if files[0].Some? {
        Rename(0, 1);
      }
      return true;
    }

    method AppendAndRotate(e: Event, maxEntries: nat)
      modifies this
      ensures files == AppendedAndRotated(old(files), e, maxEntries)
    {
      AppendEvent(e);
      if maxEntries > 0 {
        var _ := RotateIfNeeded(maxEntries);
      }
    }

    /** The oldest archive first, the active file last. */
    method ReadAllEvents() returns (events: seq<Event>)
      ensures events == Content(files)
    {
      events := [];
      var paths := files;
      ghost var whole := Content(paths);
      assert paths[..MAX_ROTATED_FILES + 1] == paths;
      var i := MAX_ROTATED_FILES;
      while i >= 1
        invariant 0 <= i <= MAX_ROTATED_FILES
        invariant whole == events + Content(paths[..i + 1])
      {
        ReadStep(paths, i, whole, events);
        events := events + Lines(paths[i]);
        i := i - 1;
      }
      ReadStep(paths, 0, whole, events);
      events := events + Lines(paths[0]);
    }
  }

  // ---------- What a rotation loses ----------

  lemma ContentAppended(files: Files, e: Event)
    ensures Content(Appended(files, e)) == Content(files) + [e]
  {
    assert Appended(files, e)[1..] == files[1..];
  }

  lemma ContentShifted(files: Files)
    ensures Content(files) == Lines(files[MAX_ROTATED_FILES]) + Content(Shifted(files))
  {
    var n := |files| - 1;
    ContentOfOldest(files, n);
    assert files[..n + 1] == files;
    assert Shifted(files)[1..] == files[..n];
  }

  /** From any state, with any limit: the log gains the event and loses at most its fifth archive. */
  lemma OnlyOldestArchiveIsLost(files: Files, e: Event, maxEntries: nat)
    ensures Content(files) + [e] ==
            (if Full(Appended(files, e), maxEntries) then Lines(files[MAX_ROTATED_FILES]) else []) +
            Content(AppendedAndRotated(files, e, maxEntries))
  {
    ContentAppended(files, e);
    ContentShifted(Appended(files, e));
  }

  /** The files after `events` were appended to an empty directory, each with its own limit. */
  function Logged(events: seq<Event>, limits: seq<nat>): Files
    requires |events| == |limits|
  {
    if events == [] then
      Empty()
    else
      var k := |events| - 1;
      AppendedAndRotated(Logged(events[..k], limits[..k]), events[k], limits[k])
  }

  predicate IsSuffix(part: seq<Event>, whole: seq<Event>) {
    |part| <= |whole| && part == whole[|whole| - |part|..]
  }

  lemma {:induction false} NoFilesNoContent(files: seq<File>)
    requires forall i | 0 <= i < |files| :: files[i].None?
    ensures Content(files) == []
  {
    if files != [] {
      NoFilesNoContent(files[1..]);
    }
  }

  lemma SuffixStep(part: seq<Event>, whole: seq<Event>, e: Event, lost: seq<Event>, next: seq<Event>)
    requires IsSuffix(part, whole) && part + [e] == lost + next
    ensures IsSuffix(next, whole + [e])
  {
    assert (whole + [e])[|whole| - |part|..] == part + [e];
    assert next == (part + [e])[|lost|..];
  }

  /** Whatever the limits were, the log is the end of the history, in order and without gaps. */
  lemma {:induction false} LogIsHistorySuffix(events: seq<Event>, limits: seq<nat>)
    requires |events| == |limits|
    ensures IsSuffix(Content(Logged(events, limits)), events)
  {
    if events == [] {
      NoFilesNoContent(Empty());
    } else {
      var k := |events| - 1;
      var before := Logged(events[..k], limits[..k]);
      LogIsHistorySuffix(events[..k], limits[..k]);
      var next := LogStep(before, events[k], limits[k], events[..k]);
      assert events == events[..k] + [events[k]];
    }
  }

  lemma LogStep(files: Files, e: Event, limit: nat, history: seq<Event>) returns (next: Files)
    requires IsSuffix(Content(files), history)
    ensures next == AppendedAndRotated(files, e, limit) && IsSuffix(Content(next), history + [e])
  {
    next := AppendedAndRotated(files, e, limit);
    OnlyOldestArchiveIsLost(files, e, limit);
    SuffixStep(Content(files), history, e,
               if Full(Appended(files, e), limit) then Lines(files[MAX_ROTATED_FILES]) else [], Content(next));
  }

  // ---------- The closed form ----------

  /** The archives so far all have `m` events: there were `q` rotations, and `r` events since. */
  predicate Regular(files: Files, m: nat, q: nat, r: nat) {
    && |Lines(files[0])| == r
    && forall i | 1 <= i < |files| :: |Lines(files[i])| == if i <= q then m else 0
  }

  function Min(a: nat, b: nat): nat { if a < b then a else b }

  lemma {:induction false} RegularLength(files: Files, m: nat, q: nat, r: nat, n: nat)
    requires Regular(files, m, q, r) && n < |files|
    ensures |Content(files[..n + 1])| == Min(q, n) * m + r
  {
    ContentOfOldest(files, n);
    if n > 0 {
      RegularLength(files, m, q, r, n - 1);
      assert n <= q ==> Min(q, n) * m == (Min(q, n - 1) + 1) * m == Min(q, n - 1) * m + m;
    }
  }

  lemma RegularTotal(files: Files, m: nat, q: nat, r: nat)
    requires Regular(files, m, q, r)
    ensures |Content(files)| == Min(q, MAX_ROTATED_FILES) * m + r
  {
    var n := |files| - 1;
    RegularLength(files, m, q, r, n);
    assert files[..n + 1] == files;
  }

  lemma QuotientUnique(k: nat, m: nat, q: nat, r: nat)
    requires k == q * m + r && r < m
    ensures k / m == q && k % m == r
  {
    var d := k / m - q;
    assert d * m == r - k % m;
    assert d >= 1 ==> d * m >= m;
    assert d <= -1 ==> d * m <= -1 * m;
  }

  lemma QuotientStep(k: nat, m: nat)
    requires m >= 1
    ensures k % m + 1 < m ==> (k + 1) / m == k / m && (k + 1) % m == k % m + 1
    ensures k % m + 1 >= m ==> (k + 1) / m == k / m + 1 && (k + 1) % m == 0
  {
    var q, r := k / m, k % m;
    assert k == q * m + r;
    if r + 1 < m {
      QuotientUnique(k + 1, m, q, r + 1);
    } else {
      assert k + 1 == (q + 1) * m;
      QuotientUnique(k + 1, m, q + 1, 0);
    }
  }

  lemma RegularStep(files: Files, e: Event, m: nat, q: nat, r: nat)
    requires Regular(files, m, q, r) && r < m
    ensures var next := AppendedAndRotated(files, e, m);
            if r + 1 < m then Regular(next, m, q, r + 1) else Regular(next, m, q + 1, 0)
  {
  }

  function Constant(k: nat, m: nat): seq<nat> { seq(k, _ => m) }

  /** With a constant limit, the log stays regular. */
  lemma {:induction false} LogIsRegular(events: seq<Event>, m: nat)
    requires m >= 1
    ensures Regular(Logged(events, Constant(|events|, m)), m, |events| / m, |events| % m)
  {
    var limits := Constant(|events|, m);
    if events == [] {
      QuotientUnique(0, m, 0, 0);
    } else {
      var k := |events| - 1;
      assert limits[..k] == Constant(k, m);
      LogIsRegular(events[..k], m);
      QuotientStep(k, m);
      RegularStep(Logged(events[..k], limits[..k]), events[k], m, k / m, k % m);
    }
  }

  /** How many of `k` events are still there. */
  function Retained(k: nat, m: nat): nat
    requires m >= 1
  {
    Min(k / m, MAX_ROTATED_FILES) * m + k % m
  }

  lemma LogLength(events: seq<Event>, m: nat)
    requires m >= 1
    ensures |Content(Logged(events, Constant(|events|, m)))| == Retained(|events|, m)
  {
    LogIsRegular(events, m);
    RegularTotal(Logged(events, Constant(|events|, m)), m, |events| / m, |events| % m);
  }

  lemma SuffixOfLength(part: seq<Event>, whole: seq<Event>, n: nat)
    requires IsSuffix(part, whole) && |part| == n
    ensures n <= |whole| && part == whole[|whole| - n..]
  {
  }

  /** After k appends with limit m >= 1, exactly the last min(k/m, 5)*m + k%m events remain, in order. */
  lemma RetainedExactly(events: seq<Event>, m: nat)
    requires m >= 1
    ensures var k := |events|;
            var n := (if k / m < 5 then k / m else 5) * m + k % m;
            n <= k && Content(Logged(events, Constant(k, m))) == events[k - n..]
  {
    LogLength(events, m);
    LogIsHistorySuffix(events, Constant(|events|, m));
    SuffixOfLength(Content(Logged(events, Constant(|events|, m))), events, Retained(|events|, m));
  }

  /** A limit of zero keeps everything. */
  lemma {:induction false} UnlimitedKeepsEverything(events: seq<Event>)
    ensures Content(Logged(events, Constant(|events|, 0))) == events
  {
    if events == [] {
      NoFilesNoContent(Empty());
    } else {
      var k := |events| - 1;
      assert Constant(|events|, 0)[..k] == Constant(k, 0);
      UnlimitedKeepsEverything(events[..k]);
      OnlyOldestArchiveIsLost(Logged(events[..k], Constant(k, 0)), events[k], 0);
      assert events == events[..k] + [events[k]];
    }
  }
}
