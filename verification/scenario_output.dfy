/**
  Fetching a finished scenario's outputs (`api/base.py`,
  `BaseFetchScenarioOutput`): one local path per output, the final output's
  metadata, the download rounds that re-request missing files, and the
  rebuilt scenario whose activities point at the downloaded files.

  Downloads, threads and the file system are environment: each round is
  given as the set of paths that exist after it and whether the processing task was
  cancelled.  Paths follow POSIX `os.path` rules.
*/
module ScenarioOutput {
  import opened Wrappers

  // ---------------------------------------------------------------------
  // POSIX path helpers
  // ---------------------------------------------------------------------

  /** `posixpath.join(a, b)`: an absolute `b` replaces `a`; otherwise a
      separator is inserted unless `a` is empty or already ends with one. */
  function Join(a: string, b: string): (r: string)
    ensures |b| > 0 && b[0] == '/' ==> r == b
    ensures (|b| == 0 || b[0] != '/') ==> |r| >= |b| && r[|r| - |b|..] == b
  {
    if |b| > 0 && b[0] == '/' then b
    else if a == [] || a[|a| - 1] == '/' then a + b
    else a + "/" + b
  }

  /** The index of the last separator in `p`, or -1 when it has none. */
  function LastSlash(p: string): (i: int)
    ensures -1 <= i < |p|
    ensures i >= 0 ==> p[i] == '/'
    ensures forall k :: i < k < |p| ==> p[k] != '/'
  {
    if p == [] then -1
    else if p[|p| - 1] == '/' then |p| - 1
    else LastSlash(p[..|p| - 1])
  }

  /** `posixpath.basename`: everything after the last separator. */
  function Basename(p: string): (r: string)
  {
    p[LastSlash(p) + 1..]
  }

  /** A file name without separators. */
  predicate PlainName(f: string)
  {
    |f| > 0 && '/' !in f
  }

  /** The basename of a file joined onto any directory is the file name. */
  lemma {:induction false} BasenameOfJoin(d: string, f: string)
    requires PlainName(f)
    ensures Basename(Join(d, f)) == f
  {
    assert f[0] in f;
    var p := Join(d, f);
    var n := |p| - |f|;
    assert p[n..] == f;
    forall k | n <= k < |p|
      ensures p[k] != '/'
    {
      assert p[k] == f[k - n];
    }
    assert n == 0 || p[n - 1] == '/' by {
      if d != [] && d[|d| - 1] == '/' {
        assert p == d + f;
      } else if d != [] {
        assert p == d + "/" + f;
      }
    }
    assert LastSlash(p) == n - 1;
  }

  // ---------------------------------------------------------------------
  // Download planning
  // ---------------------------------------------------------------------

  /** One entry of the scenario's output list. */
  datatype Output = Output(url: string, filename: string, isFinalOutput: bool, group: string, outputMeta: map<string, string>)

  /** Where an output is saved: final outputs at the top of the scenario
      directory, the others under their group's sub-directory. */
  function DownloadPath(dir: string, o: Output): string
  {
    if o.isFinalOutput then Join(dir, o.filename) else Join(Join(dir, o.group), o.filename)
  }

  /** The plan: URLs and paths in output order, and the final output's
      metadata extended with its local path under "OUTPUT". */
  datatype Plan = Plan(urls: seq<string>, paths: seq<string>, finalOutput: Option<map<string, string>>)

  /** The index of the last final output, or -1 when none is final. */
  function LastFinal(outputs: seq<Output>): (i: int)
    ensures -1 <= i < |outputs|
    ensures i >= 0 ==> outputs[i].isFinalOutput
    ensures forall k :: i < k < |outputs| ==> !outputs[k].isFinalOutput
  {
    if outputs == [] then -1
    else if outputs[|outputs| - 1].isFinalOutput then |outputs| - 1
    else LastFinal(outputs[..|outputs| - 1])
  }

  /** The metadata of the last final output, with its path under "OUTPUT";
      the loop over outputs overwrites it for every final output. */
  function FinalOutput(outputs: seq<Output>, dir: string): (m: Option<map<string, string>>)
    ensures m.None? <==> forall i :: 0 <= i < |outputs| ==> !outputs[i].isFinalOutput
    ensures m.Some? ==> var i := LastFinal(outputs);
      && 0 <= i && m.value == outputs[i].outputMeta["OUTPUT" := Join(dir, outputs[i].filename)]
  {
    var i := LastFinal(outputs);
    if i < 0 then None
    else Some(outputs[i].outputMeta["OUTPUT" := DownloadPath(dir, outputs[i])])
  }

  function PlanDownloads(outputs: seq<Output>, dir: string): (p: Plan)
    ensures |p.urls| == |outputs| && |p.paths| == |outputs|
    ensures forall i :: 0 <= i < |outputs| ==> p.urls[i] == outputs[i].url && p.paths[i] == DownloadPath(dir, outputs[i])
    ensures p.finalOutput == FinalOutput(outputs, dir)
  {
    Plan(seq(|outputs|, i requires 0 <= i < |outputs| => outputs[i].url),
         seq(|outputs|, i requires 0 <= i < |outputs| => DownloadPath(dir, outputs[i])),
         FinalOutput(outputs, dir))
  }

  /** Each planned path ends in its output's file name, whether it lies at
      the top of the directory (final output) or under the group's. */
  lemma PlannedPathsKeepFileNames(outputs: seq<Output>, dir: string, j: nat)
    requires j < |outputs| && PlainName(outputs[j].filename)
    ensures Basename(PlanDownloads(outputs, dir).paths[j]) == outputs[j].filename
  {
    if outputs[j].isFinalOutput {
      BasenameOfJoin(dir, outputs[j].filename);
    } else {
      BasenameOfJoin(Join(dir, outputs[j].group), outputs[j].filename);
    }
  }

  /** `__validate_output_paths`: whether nothing is missing, and the
      ascending indexes of the missing paths. */
  function MissingIndexes<P(==)>(paths: seq<P>, existing: set<P>): (idx: seq<nat>)
    ensures forall k :: 0 <= k < |idx| ==> idx[k] < |paths|
    decreases |paths|
  {
    if paths == [] then []
    else
      var init := MissingIndexes(paths[..|paths| - 1], existing);
      if paths[|paths| - 1] in existing then init else init + [|paths| - 1]
  }

  /** The listed indexes are in range, name missing paths and ascend; the
      list is empty exactly when every path exists. */
  lemma {:induction false} MissingIndexesSound<P>(paths: seq<P>, existing: set<P>)
    ensures var idx := MissingIndexes(paths, existing);
      && (forall k :: 0 <= k < |idx| ==> idx[k] < |paths| && paths[idx[k]] !in existing)
      && (|idx| == 0 <==> forall i :: 0 <= i < |paths| ==> paths[i] in existing)
      && (forall a, b :: 0 <= a < b < |idx| ==> idx[a] < idx[b])
    decreases |paths|
  {
    if paths != [] {
      var n := |paths| - 1;
      MissingIndexesSound(paths[..n], existing);
      assert forall i :: 0 <= i < n ==> paths[..n][i] == paths[i];
    }
  }

  /** Every missing path is listed. */
  lemma {:induction false} MissingIndexesComplete<P>(paths: seq<P>, existing: set<P>, i: nat)
    requires i < |paths| && paths[i] !in existing
    ensures i in MissingIndexes(paths, existing)
    decreases |paths|
  {
    var n := |paths| - 1;
    if i < n {
      assert paths[..n][i] == paths[i];
      MissingIndexesComplete(paths[..n], existing, i);
    }
  }

  function ValidateOutputPaths<P(==)>(paths: seq<P>, existing: set<P>): (r: (bool, seq<nat>))
    ensures r.0 <==> forall i :: 0 <= i < |paths| ==> paths[i] in existing
    ensures r.1 == MissingIndexes(paths, existing)
  {
    var idx := MissingIndexes(paths, existing);
    MissingIndexesSound(paths, existing);
    (|idx| == 0, idx)
  }

  // ---------------------------------------------------------------------
  // Download rounds
  // ---------------------------------------------------------------------

  /** What the environment does in one round: the paths that exist after
      it, and whether the processing task was cancelled meanwhile. */
  datatype Round<P> = Round(existing: set<P>, cancelled: bool)

  datatype LoopEnd = AllPresent | DownloadCancelled | SelectionIndexError | RoundsExhausted

  /** How the loop ended and the (url, path) pairs each round requested. */
  datatype DownloadRun<U, P> = DownloadRun(end: LoopEnd, requests: seq<seq<(U, P)>>)

  /** `executor.map(download_file, urls, paths)`: pairs up to the shorter list. */
  function Zip<U, P>(xs: seq<U>, ys: seq<P>): (z: seq<(U, P)>)
    ensures |z| == if |xs| < |ys| then |xs| else |ys|
    ensures forall k :: 0 <= k < |z| ==> z[k] == (xs[k], ys[k])
  {
    if xs == [] || ys == [] then [] else [(xs[0], ys[0])] + Zip(xs[1..], ys[1..])
  }

  /** `[xs[idx] for idx in indexes]`, or `None` where Python raises IndexError. */
  function Select<T>(xs: seq<T>, indexes: seq<nat>): (r: Option<seq<T>>)
    ensures r.Some? <==> forall k :: 0 <= k < |indexes| ==> indexes[k] < |xs|
    ensures r.Some? ==> |r.value| == |indexes| && forall k :: 0 <= k < |indexes| ==> r.value[k] == xs[indexes[k]]
  {
    if indexes == [] then Some([])
    else if indexes[0] >= |xs| then None
    else
      match Select(xs, indexes[1..])
      case None => None
      case Some(rest) => Some([xs[indexes[0]]] + rest)
  }

  /** The loop as written: the missing indexes are computed over the full
      `download_paths`, but applied to the lists of the previous round. */
  function DownloadLoop<U, P(==)>(urls: seq<U>, copies: seq<P>, paths: seq<P>, rounds: seq<Round<P>>): (r: DownloadRun<U, P>)
    ensures |r.requests| <= |rounds|
    ensures r.end == AllPresent && |urls| > 0 ==>
      (0 < |r.requests| && MissingIndexes(paths, rounds[|r.requests| - 1].existing) == [])
    ensures |urls| > 0 && |rounds| > 0 ==> |r.requests| > 0 && r.requests[0] == Zip(urls, copies)
    decreases |rounds|
  {
    if |urls| == 0 then DownloadRun(AllPresent, [])
    else if rounds == [] then DownloadRun(RoundsExhausted, [])
    else
      var request := Zip(urls, copies);
      if rounds[0].cancelled then DownloadRun(DownloadCancelled, [request])
      else
        var invalid := ValidateOutputPaths(paths, rounds[0].existing).1;
        var u, c := Select(urls, invalid), Select(copies, invalid);
        if u.Some? && c.Some? then
          var next := DownloadLoop(u.value, c.value, paths, rounds[1..]);
          DownloadRun(next.end, [request] + next.requests)
        else DownloadRun(SelectionIndexError, [request])
  }

  /** The (url, path) pairs of the given output indexes. */
  function PairsAt<U, P>(urls: seq<U>, paths: seq<P>, indexes: seq<nat>): (z: seq<(U, P)>)
    requires |urls| == |paths| && forall k :: 0 <= k < |indexes| ==> indexes[k] < |urls|
    ensures |z| == |indexes| && forall k :: 0 <= k < |indexes| ==> z[k] == (urls[indexes[k]], paths[indexes[k]])
  {
    seq(|indexes|, k requires 0 <= k < |indexes| && indexes[k] < |urls| && |urls| == |paths| => (urls[indexes[k]], paths[indexes[k]]))
  }

  /** As written, the first round requests every output and the second
      exactly the outputs found missing after the first. */
  lemma SecondRoundRequestsMissing<U, P>(urls: seq<U>, paths: seq<P>, rounds: seq<Round<P>>)
    requires |urls| == |paths| > 0 && |rounds| >= 2 && !rounds[0].cancelled
    requires MissingIndexes(paths, rounds[0].existing) != []
    ensures var r := DownloadLoop(urls, paths, paths, rounds);
      && |r.requests| >= 2
      && r.requests[0] == Zip(urls, paths)
      && r.requests[1] == PairsAt(urls, paths, MissingIndexes(paths, rounds[0].existing))
  {
    var invalid := MissingIndexes(paths, rounds[0].existing);
    assert Select(urls, invalid).Some? && Select(paths, invalid).Some?;
    var u, c := Select(urls, invalid).value, Select(paths, invalid).value;
    assert DownloadLoop(urls, paths, paths, rounds).requests == [Zip(urls, paths)] + DownloadLoop(u, c, paths, rounds[1..]).requests;
  }

  /** As written, every round but the last one run was not cancelled. */
  lemma {:induction false} DownloadLoopGoesOn<U, P>(urls: seq<U>, copies: seq<P>, paths: seq<P>, rounds: seq<Round<P>>)
    ensures var r := DownloadLoop(urls, copies, paths, rounds);
      forall k :: 0 <= k < |r.requests| - 1 ==> !rounds[k].cancelled
    decreases |rounds|
  {
    if |urls| > 0 && rounds != [] && !rounds[0].cancelled {
      var invalid := ValidateOutputPaths(paths, rounds[0].existing).1;
      var u, c := Select(urls, invalid), Select(copies, invalid);
      if u.Some? && c.Some? {
        DownloadLoopGoesOn(u.value, c.value, paths, rounds[1..]);
        DownloadLoopStep(urls, copies, paths, rounds, u.value, c.value);
        assert forall k :: 1 <= k < |rounds| ==> rounds[k] == rounds[1..][k - 1];
      }
    }
  }

  /** As written, the loop ends cancelled exactly when the last round it ran was cancelled. */
  lemma {:induction false} DownloadLoopCancelledIff<U, P>(urls: seq<U>, copies: seq<P>, paths: seq<P>, rounds: seq<Round<P>>)
    ensures var r := DownloadLoop(urls, copies, paths, rounds);
      r.end == DownloadCancelled <==> 0 < |r.requests| && rounds[|r.requests| - 1].cancelled
    decreases |rounds|
  {
    if |urls| > 0 && rounds != [] && !rounds[0].cancelled {
      var invalid := ValidateOutputPaths(paths, rounds[0].existing).1;
      var u, c := Select(urls, invalid), Select(copies, invalid);
      if u.Some? && c.Some? {
        var next := DownloadLoop(u.value, c.value, paths, rounds[1..]);
        DownloadLoopCancelledIff(u.value, c.value, paths, rounds[1..]);
        DownloadLoopStep(urls, copies, paths, rounds, u.value, c.value);
        if 0 < |next.requests| {
          assert rounds[|next.requests|] == rounds[1..][|next.requests| - 1];
        }
      }
    }
  }

  /** How the loop as written ends, in terms of the rounds it ran: every
      round but the last went on, it ends cancelled exactly when the last
      round it ran was cancelled, and it ends complete only after an
      uncancelled round that found nothing missing. */
  lemma DownloadLoopEnds<U, P>(urls: seq<U>, copies: seq<P>, paths: seq<P>, rounds: seq<Round<P>>)
    ensures var r := DownloadLoop(urls, copies, paths, rounds);
      && (forall k :: 0 <= k < |r.requests| - 1 ==> !rounds[k].cancelled)
      && (r.end == DownloadCancelled <==> 0 < |r.requests| && rounds[|r.requests| - 1].cancelled)
      && (r.end == AllPresent && |urls| > 0 ==>
            !rounds[|r.requests| - 1].cancelled && MissingIndexes(paths, rounds[|r.requests| - 1].existing) == [])
  {
    DownloadLoopGoesOn(urls, copies, paths, rounds);
    DownloadLoopCancelledIff(urls, copies, paths, rounds);
  }

  /** The loop as evidently intended: every round re-requests, from the
      full lists, exactly the outputs still missing. */
  function DownloadLoopIntended<U, P(==)>(pending: seq<nat>, urls: seq<U>, paths: seq<P>, rounds: seq<Round<P>>): (r: DownloadRun<U, P>)
    requires |urls| == |paths| && forall k :: 0 <= k < |pending| ==> pending[k] < |urls|
    ensures |r.requests| <= |rounds| && r.end != SelectionIndexError
    ensures |pending| > 0 && |rounds| > 0 ==> |r.requests| > 0 && r.requests[0] == PairsAt(urls, paths, pending)
    ensures forall k :: 0 < k < |r.requests| ==>
      r.requests[k] == PairsAt(urls, paths, MissingIndexes(paths, rounds[k - 1].existing))
    decreases |rounds|
  {
    if |pending| == 0 then DownloadRun(AllPresent, [])
    else if rounds == [] then DownloadRun(RoundsExhausted, [])
    else
      var request := PairsAt(urls, paths, pending);
      if rounds[0].cancelled then DownloadRun(DownloadCancelled, [request])
      else
        var next := DownloadLoopIntended(MissingIndexes(paths, rounds[0].existing), urls, paths, rounds[1..]);
        DownloadRun(next.end, [request] + next.requests)
  }

  /** The intended loop stops with every file present: after the last
      round it ran, nothing was missing. */
  lemma {:induction false} IntendedLoopEndsComplete<U, P>(pending: seq<nat>, urls: seq<U>, paths: seq<P>, rounds: seq<Round<P>>)
    requires |urls| == |paths| && forall k :: 0 <= k < |pending| ==> pending[k] < |urls|
    requires |pending| > 0
    ensures var r := DownloadLoopIntended(pending, urls, paths, rounds);
      r.end == AllPresent ==>
        0 < |r.requests| && forall i :: 0 <= i < |paths| ==> paths[i] in rounds[|r.requests| - 1].existing
    decreases |rounds|
  {
    if rounds != [] && !rounds[0].cancelled {
      var invalid := MissingIndexes(paths, rounds[0].existing);
      var next := DownloadLoopIntended(invalid, urls, paths, rounds[1..]);
      var r := DownloadLoopIntended(pending, urls, paths, rounds);
      MissingIndexesSound(paths, rounds[0].existing);
      assert r.end == next.end && r.requests == [PairsAt(urls, paths, pending)] + next.requests;
      if |invalid| == 0 {
        assert next.requests == [];
      } else {
        IntendedLoopEndsComplete(invalid, urls, paths, rounds[1..]);
        if next.end == AllPresent {
          assert rounds[1..][|next.requests| - 1] == rounds[|next.requests|];
        }
      }
    }
  }

  /** One more path is appended to the missing indexes exactly when it is missing. */
  lemma MissingIndexesSnoc<P>(paths: seq<P>, x: P, existing: set<P>)
    ensures MissingIndexes(paths + [x], existing)
      == if x in existing then MissingIndexes(paths, existing) else MissingIndexes(paths, existing) + [|paths|]
  {
    assert (paths + [x])[..|paths|] == paths;
  }

  /** The missing indexes of one, two and three outputs whose first file is present. */
  lemma MissingOfOne<P>(p1: P, existing: set<P>)
    requires p1 in existing
    ensures MissingIndexes([p1], existing) == []
  {
    MissingIndexesSnoc([], p1, existing);
    assert [] + [p1] == [p1];
  }

  lemma MissingOfTwo<P>(p1: P, p2: P, existing: set<P>)
    requires p1 in existing
    ensures MissingIndexes([p1, p2], existing) == if p2 in existing then [] else [1]
  {
    MissingOfOne(p1, existing);
    MissingIndexesSnoc([p1], p2, existing);
    assert [p1] + [p2] == [p1, p2];
  }

  /** The four outcomes of validating three paths whose first file is present. */
  lemma MissingOfThreeCases<P>(p1: P, p2: P, p3: P, existing: set<P>)
    requires p1 in existing
    ensures p2 !in existing && p3 !in existing ==> MissingIndexes([p1, p2, p3], existing) == [1, 2]
    ensures p2 !in existing && p3 in existing ==> MissingIndexes([p1, p2, p3], existing) == [1]
    ensures p2 in existing && p3 !in existing ==> MissingIndexes([p1, p2, p3], existing) == [2]
    ensures p2 in existing && p3 in existing ==> MissingIndexes([p1, p2, p3], existing) == []
  {
    MissingOfTwo(p1, p2, existing);
    MissingIndexesSnoc([p1, p2], p3, existing);
    assert [p1, p2] + [p3] == [p1, p2, p3];
    if p2 !in existing && p3 !in existing {
      assert [1] + [2] == [1, 2];
    }
  }

  /** A last round that finds everything present ends the loop as written. */
  lemma DownloadLoopLastRound<U, P>(urls: seq<U>, copies: seq<P>, paths: seq<P>, rounds: seq<Round<P>>)
    requires |urls| > 0 && |rounds| == 1 && !rounds[0].cancelled && MissingIndexes(paths, rounds[0].existing) == []
    ensures DownloadLoop(urls, copies, paths, rounds).requests == [Zip(urls, copies)]
  {
    assert Select(urls, []) == Some([]) && Select(copies, []) == Some([]);
  }

  /** One round of the loop as written that neither finishes, is cancelled nor fails. */
  lemma DownloadLoopStep<U, P>(urls: seq<U>, copies: seq<P>, paths: seq<P>, rounds: seq<Round<P>>,
                                  u: seq<U>, c: seq<P>)
    requires |urls| > 0 && |rounds| > 0 && !rounds[0].cancelled
    requires Select(urls, MissingIndexes(paths, rounds[0].existing)) == Some(u)
    requires Select(copies, MissingIndexes(paths, rounds[0].existing)) == Some(c)
    ensures DownloadLoop(urls, copies, paths, rounds).requests == [Zip(urls, copies)] + DownloadLoop(u, c, paths, rounds[1..]).requests
    ensures DownloadLoop(urls, copies, paths, rounds).end == DownloadLoop(u, c, paths, rounds[1..]).end
  {
  }

  /** Retry selections over a three-entry and a two-entry list. */
  lemma SelectSecondAndThird<T>(a: T, b: T, c: T)
    ensures Select([a, b, c], [1, 2]) == Some([b, c])
  {
    assert Select([a, b, c], [1, 2]).value == [b, c];
  }

  lemma SelectOfTwo<T>(a: T, b: T)
    ensures Select([a, b], [1]) == Some([b])
    ensures Select([a, b], [2]) == None
  {
    assert Select([a, b], [1]).value == [b];
    assert [2][0] == 2;
  }

  lemma ZipOfOne<U, P>(u: U, p: P)
    ensures Zip([u], [p]) == [(u, p)]
  {
  }

  /** The last two rounds of the scenario below, as written: the retry
      lists hold outputs 2 and 3, and index 1 of them is output 3. */
  lemma WrongFileTail<U, P>(u2: U, u3: U, p2: P, p3: P, paths: seq<P>, rest: seq<Round<P>>)
    requires |rest| == 2 && !rest[0].cancelled && !rest[1].cancelled
    requires MissingIndexes(paths, rest[0].existing) == [1] && MissingIndexes(paths, rest[1].existing) == []
    ensures var r := DownloadLoop([u2, u3], [p2, p3], paths, rest);
      |r.requests| == 2 && r.requests[1] == [(u3, p3)]
  {
    SelectOfTwo(u2, u3);
    SelectOfTwo(p2, p3);
    DownloadLoopStep([u2, u3], [p2, p3], paths, rest, [u3], [p3]);
    var last := DownloadLoop([u3], [p3], paths, rest[1..]);
    DownloadLoopLastRound([u3], [p3], paths, rest[1..]);
    ZipOfOne(u3, p3);
    assert last.requests == [[(u3, p3)]];
  }

  /** As written, the third round can request the wrong file.  With three
      outputs, when the first round leaves `p2` and `p3` missing and the
      second only `p2`, the second round requested `(u2, p2)` and
      `(u3, p3)`, and the third picks index 1 of that list, `(u3, p3)`,
      although `p3` is present and `p2` is not. */
  lemma ThirdRoundSelectsWrongFile<U, P>(u1: U, u2: U, u3: U, p1: P, p2: P, p3: P, e1: set<P>, e2: set<P>, e3: set<P>)
    requires p1 in e1 && p2 !in e1 && p3 !in e1
    requires p1 in e2 && p2 !in e2 && p3 in e2
    requires p1 in e3 && p2 in e3 && p3 in e3
    ensures var rounds := [Round(e1, false), Round(e2, false), Round(e3, false)];
      var r := DownloadLoop([u1, u2, u3], [p1, p2, p3], [p1, p2, p3], rounds);
      |r.requests| == 3 && r.requests[2] == [(u3, p3)]
  {
    var rounds := [Round(e1, false), Round(e2, false), Round(e3, false)];
    MissingOfThreeCases(p1, p2, p3, e1);
    MissingOfThreeCases(p1, p2, p3, e2);
    MissingOfThreeCases(p1, p2, p3, e3);
    WrongFileRun(u1, u2, u3, p1, p2, p3, rounds[0], rounds[1], rounds[2]);
  }

  /** The scenario above in terms of what each round finds missing. */
  lemma WrongFileRun<U, P>(u1: U, u2: U, u3: U, p1: P, p2: P, p3: P, r1: Round<P>, r2: Round<P>, r3: Round<P>)
    requires !r1.cancelled && !r2.cancelled && !r3.cancelled
    requires MissingIndexes([p1, p2, p3], r1.existing) == [1, 2]
    requires MissingIndexes([p1, p2, p3], r2.existing) == [1]
    requires MissingIndexes([p1, p2, p3], r3.existing) == []
    ensures var r := DownloadLoop([u1, u2, u3], [p1, p2, p3], [p1, p2, p3], [r1, r2, r3]);
      |r.requests| == 3 && r.requests[2] == [(u3, p3)]
  {
    var paths, rounds, rest := [p1, p2, p3], [r1, r2, r3], [r2, r3];
    assert rounds[1..] == rest;
    SelectSecondAndThird(u1, u2, u3);
    SelectSecondAndThird(p1, p2, p3);
    DownloadLoopStep([u1, u2, u3], paths, paths, rounds, [u2, u3], [p2, p3]);
    var tail := DownloadLoop([u2, u3], [p2, p3], paths, rest);
    WrongFileTail(u2, u3, p2, p3, paths, rest);
    assert |tail.requests| == 2 && tail.requests[1] == [(u3, p3)];
  }

  /** As written, when the second round leaves only the last of three files
      missing, its index 2 is out of range for the two-entry retry list. */
  lemma ThirdRoundIndexError<U, P>(u1: U, u2: U, u3: U, p1: P, p2: P, p3: P, e1: set<P>, e2: set<P>)
    requires p1 in e1 && p2 !in e1 && p3 !in e1
    requires p1 in e2 && p2 in e2 && p3 !in e2
    ensures DownloadLoop([u1, u2, u3], [p1, p2, p3], [p1, p2, p3], [Round(e1, false), Round(e2, false)]).end
      == SelectionIndexError
  {
    var paths := [p1, p2, p3];
    var rounds := [Round(e1, false), Round(e2, false)];
    assert rounds[1..] == [rounds[1]];
    MissingOfThreeCases(p1, p2, p3, e1);
    MissingOfThreeCases(p1, p2, p3, e2);
    SelectSecondAndThird(u1, u2, u3);
    SelectSecondAndThird(p1, p2, p3);
    DownloadLoopStep([u1, u2, u3], paths, paths, rounds, [u2, u3], [p2, p3]);
    SelectOfTwo(u2, u3);
  }

  // ---------------------------------------------------------------------
  // Rebuilding the scenario
  // ---------------------------------------------------------------------

  /** A pathway or activity as the API describes it: its other fields and its layer path. */
  datatype PathwayRecord = PathwayRecord(fields: map<string, string>, path: string)
  datatype ActivityRecord = ActivityRecord(fields: map<string, string>, path: string, pathways: seq<PathwayRecord>)

  /** A dictionary built by assigning `values[i]` to `keys[i]` in order,
      so that the last assignment to a key wins. */
  function LastByKey<K, V>(keys: seq<K>, values: seq<V>): (d: map<K, V>)
    requires |keys| == |values|
    ensures forall i :: 0 <= i < |keys| ==> keys[i] in d
    ensures forall k :: k in d ==> k in keys
    decreases |keys|
  {
    if keys == [] then map[]
    else
      var n := |keys| - 1;
      var init := LastByKey(keys[..n], values[..n]);
      assert forall i :: 0 <= i < n ==> keys[..n][i] == keys[i];
      init[keys[n] := values[n]]
  }

  /** A key that no later position repeats maps to its own value. */
  lemma {:induction false} LastByKeyLastWins<K, V>(keys: seq<K>, values: seq<V>, i: nat)
    requires |keys| == |values| && i < |keys|
    requires forall j :: i < j < |keys| ==> keys[j] != keys[i]
    ensures LastByKey(keys, values)[keys[i]] == values[i]
    decreases |keys|
  {
    var n := |keys| - 1;
    if i < n {
      assert keys[..n][i] == keys[i] && values[..n][i] == values[i];
      assert forall j :: i < j < n ==> keys[..n][j] == keys[j];
      LastByKeyLastWins(keys[..n], values[..n], i);
    }
  }

  function Basenames(paths: seq<string>): (names: seq<string>)
    ensures |names| == |paths| && forall i :: 0 <= i < |paths| ==> names[i] == Basename(paths[i])
  {
    seq(|paths|, i requires 0 <= i < |paths| => Basename(paths[i]))
  }

  /** `{basename(d): d for d in download_paths}`: the last path wins for a repeated basename. */
  function DownloadDict(paths: seq<string>): (d: map<string, string>)
    ensures forall i :: 0 <= i < |paths| ==> Basename(paths[i]) in d
  {
    var names := Basenames(paths);
    assert forall i :: 0 <= i < |paths| ==> names[i] in LastByKey(names, paths);
    LastByKey(names, paths)
  }

  /** A path whose basename no later path repeats is the one the dictionary keeps. */
  lemma DownloadDictLastWins(paths: seq<string>, i: nat)
    requires i < |paths|
    requires forall j :: i < j < |paths| ==> Basename(paths[j]) != Basename(paths[i])
    ensures DownloadDict(paths)[Basename(paths[i])] == paths[i]
  {
    LastByKeyLastWins(Basenames(paths), paths, i);
  }

  /** A path pointed at its downloaded copy when a file of that name was
      downloaded, and left as it was otherwise. */
  function LocalPath(path: string, download: map<string, string>): (r: string)
    ensures Basename(path) in download ==> r == download[Basename(path)]
    ensures Basename(path) !in download ==> r == path
  {
    Get(download, Basename(path), path)
  }

  /** The elements satisfying `keep`, in order, each transformed by `f`. */
  function FilterMap<T, R>(xs: seq<T>, keep: T -> bool, f: T -> R): (ys: seq<R>)
    ensures |ys| <= |xs|
  {
    if xs == [] then []
    else
      var rest := FilterMap(xs[1..], keep, f);
      if keep(xs[0]) then [f(xs[0])] + rest else rest
  }

  /** How many of the first `i` elements satisfy `keep`. */
  function CountKept<T>(xs: seq<T>, keep: T -> bool, i: nat): (n: nat)
    requires i <= |xs|
    ensures n <= i
  {
    if i == 0 then 0
    else (if keep(xs[0]) then 1 else 0) + CountKept(xs[1..], keep, i - 1)
  }

  /** Every kept element appears, transformed, right after the kept elements before it. */
  lemma {:induction false} FilterMapKeeps<T, R>(xs: seq<T>, keep: T -> bool, f: T -> R, i: nat)
    requires i < |xs| && keep(xs[i])
    ensures CountKept(xs, keep, i) < |FilterMap(xs, keep, f)|
    ensures FilterMap(xs, keep, f)[CountKept(xs, keep, i)] == f(xs[i])
  {
    if i > 0 {
      assert xs[1..][i - 1] == xs[i];
      FilterMapKeeps(xs[1..], keep, f, i - 1);
    }
  }

  /** Every element of the result is a transformed element that was kept. */
  lemma {:induction false} FilterMapOrigin<T, R>(xs: seq<T>, keep: T -> bool, f: T -> R, k: nat)
    requires k < |FilterMap(xs, keep, f)|
    ensures exists j :: 0 <= j < |xs| && keep(xs[j]) && FilterMap(xs, keep, f)[k] == f(xs[j])
  {
    var rest := FilterMap(xs[1..], keep, f);
    if keep(xs[0]) && k == 0 {
      assert FilterMap(xs, keep, f)[0] == f(xs[0]);
    } else {
      var k' := if keep(xs[0]) then k - 1 else k;
      assert FilterMap(xs, keep, f)[k] == rest[k'];
      FilterMapOrigin(xs[1..], keep, f, k');
      var j :| 0 <= j < |xs[1..]| && keep(xs[1..][j]) && rest[k'] == f(xs[1..][j]);
      assert xs[1..][j] == xs[j + 1];
    }
  }

  /** When every element is kept, none is dropped. */
  lemma {:induction false} FilterMapKeepsAll<T, R>(xs: seq<T>, keep: T -> bool, f: T -> R)
    requires forall i :: 0 <= i < |xs| ==> keep(xs[i])
    ensures |FilterMap(xs, keep, f)| == |xs|
  {
    if xs != [] {
      assert forall i :: 0 <= i < |xs| - 1 ==> xs[1..][i] == xs[i + 1];
      FilterMapKeepsAll(xs[1..], keep, f);
    }
  }

  /** Whether the pathway's file was among the downloads. */
  predicate Downloaded(p: PathwayRecord, download: map<string, string>)
  {
    Basename(p.path) in download
  }

  /** The pathway with the API-only identifiers removed and its path pointing at the download. */
  function LocalPathway(p: PathwayRecord, download: map<string, string>): (q: PathwayRecord)
    ensures "layer_uuid" !in q.fields && "carbon_uuids" !in q.fields
    ensures forall k :: k in p.fields && k != "layer_uuid" && k != "carbon_uuids" ==> k in q.fields && q.fields[k] == p.fields[k]
    ensures forall k :: k in q.fields ==> k in p.fields
    ensures Downloaded(p, download) ==> q.path == download[Basename(p.path)]
  {
    PathwayRecord(p.fields - {"layer_uuid", "carbon_uuids"}, LocalPath(p.path, download))
  }

  /** The pathways kept for an activity: those whose file was downloaded,
      in order, each with the identifiers removed. */
  function LocalPathways(ps: seq<PathwayRecord>, download: map<string, string>): (qs: seq<PathwayRecord>)
    ensures |qs| <= |ps|
  {
    FilterMap(ps, p => Downloaded(p, download), p => LocalPathway(p, download))
  }

  /** Every pathway whose file was downloaded is kept, pointed at the
      download, right after the downloaded pathways that precede it. */
  lemma LocalPathwaysKeepDownloaded(ps: seq<PathwayRecord>, download: map<string, string>, i: nat)
    requires i < |ps| && Downloaded(ps[i], download)
    ensures var n := CountKept(ps, p => Downloaded(p, download), i);
      n < |LocalPathways(ps, download)| && LocalPathways(ps, download)[n] == LocalPathway(ps[i], download)
  {
    FilterMapKeeps(ps, p => Downloaded(p, download), p => LocalPathway(p, download), i);
  }

  /** Only pathways whose file was downloaded are kept, each with the identifiers removed. */
  lemma LocalPathwaysOnlyDownloaded(ps: seq<PathwayRecord>, download: map<string, string>, k: nat)
    requires k < |LocalPathways(ps, download)|
    ensures "layer_uuid" !in LocalPathways(ps, download)[k].fields
    ensures "carbon_uuids" !in LocalPathways(ps, download)[k].fields
    ensures exists j :: 0 <= j < |ps| && Downloaded(ps[j], download) && LocalPathways(ps, download)[k] == LocalPathway(ps[j], download)
  {
    FilterMapOrigin(ps, p => Downloaded(p, download), p => LocalPathway(p, download), k);
  }

  /** When every pathway's file was downloaded, none is dropped. */
  lemma LocalPathwaysKeepAll(ps: seq<PathwayRecord>, download: map<string, string>)
    requires forall i :: 0 <= i < |ps| ==> Downloaded(ps[i], download)
    ensures |LocalPathways(ps, download)| == |ps|
  {
    FilterMapKeepsAll(ps, p => Downloaded(p, download), p => LocalPathway(p, download));
  }

  /** `__create_activity`: pathways filtered and rewritten, and the
      activity's own path rewritten only when its file was downloaded. */
  function CreateActivity(a: ActivityRecord, download: map<string, string>): (b: ActivityRecord)
    ensures b.fields == a.fields
    ensures b.pathways == LocalPathways(a.pathways, download)
    ensures Basename(a.path) in download ==> b.path == download[Basename(a.path)]
    ensures Basename(a.path) !in download ==> b.path == a.path
  {
    ActivityRecord(a.fields, LocalPath(a.path, download), LocalPathways(a.pathways, download))
  }

  /** Every activity whose file is one of the planned outputs is pointed at
      the local copy of that output (the last one, if file names repeat). */
  lemma {:induction false} ActivityFindsItsDownload(a: ActivityRecord, outputs: seq<Output>, dir: string, i: nat)
    requires i < |outputs| && PlainName(outputs[i].filename)
    requires Basename(a.path) == outputs[i].filename
    requires forall j :: i < j < |outputs| ==> PlainName(outputs[j].filename) && outputs[j].filename != outputs[i].filename
    ensures var paths := PlanDownloads(outputs, dir).paths;
      CreateActivity(a, DownloadDict(paths)).path == paths[i]
  {
    var paths := PlanDownloads(outputs, dir).paths;
    PlannedPathsKeepFileNames(outputs, dir, i);
    forall j | i < j < |paths|
      ensures Basename(paths[j]) != Basename(paths[i])
    {
      PlannedPathsKeepFileNames(outputs, dir, j);
    }
    DownloadDictLastWins(paths, i);
  }

  /** The plugin-side scenario the results are attached to. */
  datatype ScenarioInfo = ScenarioInfo(uuid: string, name: string, description: string, extent: seq<real>, serverUuid: string)

  /** The parts of the scenario detail that are read; `None` is a missing key. */
  datatype ScenarioDetail = ScenarioDetail(
    activities: Option<seq<ActivityRecord>>,
    weightedActivities: Option<seq<ActivityRecord>>,
    priorityLayerGroups: Option<seq<string>>)

  datatype Scenario = Scenario(
    info: ScenarioInfo,
    activities: seq<ActivityRecord>,
    weightedActivities: seq<ActivityRecord>,
    priorityLayerGroups: seq<string>)

  function CreateActivities(acts: seq<ActivityRecord>, download: map<string, string>): (bs: seq<ActivityRecord>)
    ensures |bs| == |acts| && forall k :: 0 <= k < |acts| ==> bs[k] == CreateActivity(acts[k], download)
  {
    seq(|acts|, k requires 0 <= k < |acts| => CreateActivity(acts[k], download))
  }

  /** `__create_scenario`: identity from the original scenario, activities
      rebuilt against the downloads, layer groups from the detail. */
  function CreateScenario(original: ScenarioInfo, detail: ScenarioDetail, paths: seq<string>): (s: Scenario)
    ensures s.info == original
    ensures |s.activities| == |detail.activities.GetOr([])|
    ensures forall k :: 0 <= k < |s.activities| ==>
      s.activities[k] == CreateActivity(detail.activities.GetOr([])[k], DownloadDict(paths))
    ensures |s.weightedActivities| == |detail.weightedActivities.GetOr([])|
    ensures forall k :: 0 <= k < |s.weightedActivities| ==>
      s.weightedActivities[k] == CreateActivity(detail.weightedActivities.GetOr([])[k], DownloadDict(paths))
    ensures s.priorityLayerGroups == detail.priorityLayerGroups.GetOr([])
  {
    var download := DownloadDict(paths);
    Scenario(original,
             CreateActivities(detail.activities.GetOr([]), download),
             CreateActivities(detail.weightedActivities.GetOr([]), download),
             detail.priorityLayerGroups.GetOr([]))
  }

  /** In the rebuilt scenario, every activity and weighted activity whose
      file is one of the planned outputs points at that output's local copy
      (the last one, if file names repeat); the identity is the original's. */
  lemma ScenarioPointsAtDownloads(original: ScenarioInfo, detail: ScenarioDetail, outputs: seq<Output>, dir: string, i: nat)
    requires i < |outputs| && PlainName(outputs[i].filename)
    requires forall j :: i < j < |outputs| ==> PlainName(outputs[j].filename) && outputs[j].filename != outputs[i].filename
    ensures var paths := PlanDownloads(outputs, dir).paths;
      var s := CreateScenario(original, detail, paths);
      && s.info == original
      && (forall k :: 0 <= k < |s.activities| && Basename(detail.activities.GetOr([])[k].path) == outputs[i].filename ==>
            s.activities[k].path == paths[i])
      && (forall k :: 0 <= k < |s.weightedActivities| && Basename(detail.weightedActivities.GetOr([])[k].path) == outputs[i].filename ==>
            s.weightedActivities[k].path == paths[i])
  {
    var paths := PlanDownloads(outputs, dir).paths;
    var acts, weighted := detail.activities.GetOr([]), detail.weightedActivities.GetOr([]);
    forall k | 0 <= k < |acts| && Basename(acts[k].path) == outputs[i].filename
      ensures CreateActivity(acts[k], DownloadDict(paths)).path == paths[i]
    {
      ActivityFindsItsDownload(acts[k], outputs, dir, i);
    }
    forall k | 0 <= k < |weighted| && Basename(weighted[k].path) == outputs[i].filename
      ensures CreateActivity(weighted[k], DownloadDict(paths)).path == paths[i]
    {
      ActivityFindsItsDownload(weighted[k], outputs, dir, i);
    }
  }

  // ---------------------------------------------------------------------
  // fetch_scenario_output
  // ---------------------------------------------------------------------

  datatype FetchOutcome =
    | NoResult                                // the (None, None) return
    | SelectionFailed                         // IndexError from the retry selection
    | OutOfRounds                             // the environment supplied no further round
    | Fetched(scenario: Scenario, analysisOutput: Option<map<string, string>>)

  /** Python truthiness of a tuple: true for any non-empty tuple. */
  predicate TupleTruthy(arity: nat)
  {
    arity > 0
  }

  /** Python truthiness of a pair, whatever its elements: a tuple of two. */
  predicate PairTruthy<A, B>(pair: (A, B))
  {
    TupleTruthy(2)
  }

  /** Line 206 as written negates the pair `(is_valid, invalid_indexes)`,
      which is always truthy, so the early return never happens. */
  function FinalCheckRejects(paths: seq<string>, existing: set<string>): (reject: bool)
    ensures !reject
  {
    !PairTruthy(ValidateOutputPaths(paths, existing))
  }

  /** `range(n)`. */
  function Indexes(n: nat): (s: seq<nat>)
    ensures |s| == n && forall k :: 0 <= k < n ==> s[k] == k
  {
    if n == 0 then [] else Indexes(n - 1) + [n - 1]
  }

  /** `fetch_scenario_output` as written; `existingAtCheck` is what exists when line 206 runs. */
  function FetchScenarioOutput(original: ScenarioInfo, detail: Option<ScenarioDetail>, outputs: seq<Output>,
                               dir: string, rounds: seq<Round<string>>, existingAtCheck: set<string>): (r: FetchOutcome)
    ensures detail.None? ==> r == NoResult
    ensures r.Fetched? ==> (r.analysisOutput == FinalOutput(outputs, dir)
      && r.scenario == CreateScenario(original, detail.value, PlanDownloads(outputs, dir).paths))
  {
    if detail.None? then NoResult
    else
      var plan := PlanDownloads(outputs, dir);
      var run := DownloadLoop(plan.urls, plan.paths, plan.paths, rounds);
      match run.end
      case DownloadCancelled => NoResult
      case SelectionIndexError => SelectionFailed
      case RoundsExhausted => OutOfRounds
      case AllPresent =>
        if FinalCheckRejects(plan.paths, existingAtCheck) then NoResult
        else Fetched(CreateScenario(original, detail.value, plan.paths), plan.finalOutput)
  }

  /** The evident intent: retry from the full lists, and give up when the
      final check finds a path missing. */
  function FetchScenarioOutputIntended(original: ScenarioInfo, detail: Option<ScenarioDetail>, outputs: seq<Output>,
                                       dir: string, rounds: seq<Round<string>>, existingAtCheck: set<string>): (r: FetchOutcome)
    ensures detail.None? ==> r == NoResult
    ensures r != SelectionFailed
    ensures r.Fetched? ==> forall i :: 0 <= i < |outputs| ==> DownloadPath(dir, outputs[i]) in existingAtCheck
    ensures r.Fetched? ==> (r.analysisOutput == FinalOutput(outputs, dir)
      && r.scenario == CreateScenario(original, detail.value, PlanDownloads(outputs, dir).paths))
  {
    if detail.None? then NoResult
    else
      var plan := PlanDownloads(outputs, dir);
      var all := Indexes(|outputs|);
      var run := DownloadLoopIntended(all, plan.urls, plan.paths, rounds);
      match run.end
      case DownloadCancelled => NoResult
      case SelectionIndexError => SelectionFailed
      case RoundsExhausted => OutOfRounds
      case AllPresent =>
        if !ValidateOutputPaths(plan.paths, existingAtCheck).0 then NoResult
        else Fetched(CreateScenario(original, detail.value, plan.paths), plan.finalOutput)
  }

  /** A single output downloaded in the first round but gone by the time of
      the final check: as written the scenario is still built, where the
      intended check gives up. */
  lemma FinalCheckNeverFires(original: ScenarioInfo, detail: ScenarioDetail, o: Output, dir: string)
    ensures var path := DownloadPath(dir, o);
      var rounds := [Round({path}, false)];
      && FetchScenarioOutput(original, Some(detail), [o], dir, rounds, {}).Fetched?
      && FetchScenarioOutputIntended(original, Some(detail), [o], dir, rounds, {}) == NoResult
  {
    var path := DownloadPath(dir, o);
    var plan := PlanDownloads([o], dir);
    var rounds := [Round({path}, false)];
    assert plan.paths == [path] && plan.urls == [o.url];
    assert [path][..0] == [];
    assert MissingIndexes([path], {path}) == [];
    assert Select([o.url], []) == Some([]) && Select([path], []) == Some([]);
    assert DownloadLoop<string, string>([], [], [path], rounds[1..]).end == AllPresent;
    assert DownloadLoop([o.url], [path], [path], rounds).end == AllPresent;
    assert Indexes(1) == [0];
    assert DownloadLoopIntended([], [o.url], [path], rounds[1..]).end == AllPresent;
    assert DownloadLoopIntended([0], [o.url], [path], rounds).end == AllPresent;
    assert !ValidateOutputPaths([path], {}).0;
  }

  /** A loop as written over a non-empty list that ends complete ran
      rounds none of which was cancelled, and the last of them found every
      path; a first round that is cancelled ends it at once. */
  lemma LoopCompletes<U, P>(urls: seq<U>, paths: seq<P>, rounds: seq<Round<P>>)
    ensures var run := DownloadLoop(urls, paths, paths, rounds);
      && (|urls| > 0 && |rounds| > 0 && rounds[0].cancelled ==> run.end == DownloadCancelled)
      && (run.end == AllPresent && |urls| > 0 ==>
            && 0 < |run.requests| <= |rounds|
            && (forall k :: 0 <= k < |run.requests| ==> !rounds[k].cancelled)
            && forall i :: 0 <= i < |paths| ==> paths[i] in rounds[|run.requests| - 1].existing)
  {
    var run := DownloadLoop(urls, paths, paths, rounds);
    DownloadLoopEnds(urls, paths, paths, rounds);
    if run.end == AllPresent && |urls| > 0 {
      MissingIndexesSound(paths, rounds[|run.requests| - 1].existing);
    }
  }

  /** The same for the planned downloads, in terms of each output's path. */
  lemma PlannedLoopCompletes(outputs: seq<Output>, dir: string, rounds: seq<Round<string>>)
    ensures var plan := PlanDownloads(outputs, dir);
      var run := DownloadLoop(plan.urls, plan.paths, plan.paths, rounds);
      && (|outputs| > 0 && |rounds| > 0 && rounds[0].cancelled ==> run.end == DownloadCancelled)
      && (run.end == AllPresent && |outputs| > 0 ==>
            && 0 < |run.requests| <= |rounds|
            && (forall k :: 0 <= k < |run.requests| ==> !rounds[k].cancelled)
            && forall i :: 0 <= i < |outputs| ==> DownloadPath(dir, outputs[i]) in rounds[|run.requests| - 1].existing)
  {
    var plan := PlanDownloads(outputs, dir);
    LoopCompletes(plan.urls, plan.paths, rounds);
  }

  /** With a detail, the outcome as written is decided by how the download loop ends. */
  lemma FetchOutcomeOfLoop(original: ScenarioInfo, detail: ScenarioDetail, outputs: seq<Output>,
                           dir: string, rounds: seq<Round<string>>, existingAtCheck: set<string>)
    ensures var plan := PlanDownloads(outputs, dir);
      var end := DownloadLoop(plan.urls, plan.paths, plan.paths, rounds).end;
      var r := FetchScenarioOutput(original, Some(detail), outputs, dir, rounds, existingAtCheck);
      && (r.Fetched? <==> end == AllPresent)
      && (r == NoResult <==> end == DownloadCancelled)
  {
  }

  /** As written, the outcome follows the download rounds: with a detail
      the scenario is fetched exactly when the loop ends with nothing
      missing, and nothing is returned exactly when it was cancelled.  A
      fetched scenario comes after rounds none of which was cancelled, the
      last of which found every planned file present. */
  lemma FetchFollowsDownloadRounds(original: ScenarioInfo, detail: ScenarioDetail, outputs: seq<Output>,
                                   dir: string, rounds: seq<Round<string>>, existingAtCheck: set<string>)
    ensures var plan := PlanDownloads(outputs, dir);
      var run := DownloadLoop(plan.urls, plan.paths, plan.paths, rounds);
      var r := FetchScenarioOutput(original, Some(detail), outputs, dir, rounds, existingAtCheck);
      && (r.Fetched? <==> run.end == AllPresent)
      && (r == NoResult <==> run.end == DownloadCancelled)
      && (|outputs| > 0 && |rounds| > 0 && rounds[0].cancelled ==> r == NoResult)
      && (r.Fetched? && |outputs| > 0 ==>
            && 0 < |run.requests| <= |rounds|
            && (forall k :: 0 <= k < |run.requests| ==> !rounds[k].cancelled)
            && forall i :: 0 <= i < |outputs| ==> DownloadPath(dir, outputs[i]) in rounds[|run.requests| - 1].existing)
  {
    FetchOutcomeOfLoop(original, detail, outputs, dir, rounds, existingAtCheck);
    PlannedLoopCompletes(outputs, dir, rounds);
  }
}
