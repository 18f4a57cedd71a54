/** The upload orchestration of `upload_release` (src/uploader.rs): discover
    the assets, refuse an empty catalog, then upload the assets one after
    another, stopping at the first failure.

    The storage backend is an oracle: the outcome of an upload may depend on
    the call and on every call made before it. */
module Upload {
  import opened Results
  import opened Uploader
  import opened Discovery

  /** One call of the backend's `upload_file`. */
  datatype UploadCall = UploadCall(key: string, path: Path, contentType: Option<string>)

  /** The backend's answer to a call, given the calls made before it; `Err`
      carries the backend's message. */
  type Backend = (seq<UploadCall>, UploadCall) -> Result<(), string>

  /** What one run did: the calls it made, in order, and how it ended. */
  datatype Run = Run(attempted: seq<UploadCall>, outcome: Result<(), Error>)

  /** The call that uploads `a`: its key, its path and the content type
      guessed from the path. */
  function CallFor(fs: FileSystem, a: Asset): (call: UploadCall)
    ensures call.key == a.key && call.path == a.filePath
    ensures call.contentType == GuessContentType(fs, a.filePath)
    ensures call.contentType.Some?
  {
    UploadCall(a.key, a.filePath, GuessContentType(fs, a.filePath))
  }

  /** The calls that upload `assets`, in catalog order. */
  function CallsFor(fs: FileSystem, assets: seq<Asset>): (calls: seq<UploadCall>)
    ensures |calls| == |assets|
    ensures forall i :: 0 <= i < |assets| ==> calls[i] == CallFor(fs, assets[i])
  {
    seq(|assets|, i requires 0 <= i < |assets| => CallFor(fs, assets[i]))
  }

  /** The backend accepts each of `calls`, made in turn after `history`. */
  predicate AllAccepted(backend: Backend, history: seq<UploadCall>, calls: seq<UploadCall>)
    decreases |calls|
  {
    calls == [] ||
    (backend(history, calls[0]).Ok? && AllAccepted(backend, history + [calls[0]], calls[1..]))
  }

  /** The upload loop of `upload_release`, over the assets' calls and after
      the calls in `history`: each call in turn, stopping at the first
      failure, which is reported with the failing asset's path. */
  function UploadEach(backend: Backend, calls: seq<UploadCall>, history: seq<UploadCall>)
    : (run: Run)
    ensures |run.attempted| <= |calls|
    ensures run.attempted == calls[..|run.attempted|]
    ensures run.outcome.Ok? ==> |run.attempted| == |calls|
    decreases |calls|
  {
    if calls == [] then Run([], Ok(()))
    else
      var call := calls[0];
      match backend(history, call)
      case Err(cause) => Run([call], Err(UploadFailed(call.path, cause)))
      case Ok(_) =>
        var rest := UploadEach(backend, calls[1..], history + [call]);
        Run([call] + rest.attempted, rest.outcome)
  }

  /** The loop succeeds exactly when every call was made and the backend
      accepted each. */
  lemma {:induction false} UploadEachSucceedsIff(backend: Backend, calls: seq<UploadCall>,
                                                 history: seq<UploadCall>)
    ensures var run := UploadEach(backend, calls, history);
            run.outcome.Ok? <==> run.attempted == calls && AllAccepted(backend, history, calls)
    decreases |calls|
  {
    var run := UploadEach(backend, calls, history);
    if calls != [] {
      var call := calls[0];
      assert calls == [call] + calls[1..];
      if backend(history, call).Ok? {
        UploadEachSucceedsIff(backend, calls[1..], history + [call]);
        AcceptedCons(backend, history, call, calls[1..]);
      } else {
        assert calls[..0] == [];
        assert history + calls[..0] == history;
      }
    }
  }

  /** Accepting `call` and then `rest` is accepting `[call] + rest`. */
  lemma AcceptedCons(backend: Backend, history: seq<UploadCall>, call: UploadCall, rest: seq<UploadCall>)
    ensures AllAccepted(backend, history, [call] + rest) <==>
            backend(history, call).Ok? && AllAccepted(backend, history + [call], rest)
  {
    assert ([call] + rest)[0] == call && ([call] + rest)[1..] == rest;
  }

  /** The backend accepts the calls one by one: call `i` is accepted after
      `history` and the calls before it. */
  lemma {:induction false} AllAcceptedEach(backend: Backend, history: seq<UploadCall>,
                                           calls: seq<UploadCall>, i: nat)
    requires AllAccepted(backend, history, calls) && i < |calls|
    ensures backend(history + calls[..i], calls[i]).Ok?
    decreases i
  {
    if i == 0 {
      assert history + calls[..0] == history;
    } else {
      AllAcceptedEach(backend, history + [calls[0]], calls[1..], i - 1);
      assert (history + [calls[0]]) + calls[1..][..i - 1] == history + calls[..i];
    }
  }

  /** `run` ended at its last call: at least one call was made, the backend
      accepted all calls before the last, refused the last, and the run
      failed naming the last call's path and carrying the backend's
      message. */
  predicate StoppedAtLast(backend: Backend, history: seq<UploadCall>, run: Run) {
    var n := |run.attempted|;
    && n > 0
    && AllAccepted(backend, history, run.attempted[..n - 1])
    && backend(history + run.attempted[..n - 1], run.attempted[n - 1]).Err?
    && run.outcome == Err(UploadFailed(run.attempted[n - 1].path,
                                       backend(history + run.attempted[..n - 1], run.attempted[n - 1]).error))
  }

  /** A failed loop stopped at its last call. */
  lemma {:induction false} UploadEachFailure(backend: Backend, calls: seq<UploadCall>,
                                             history: seq<UploadCall>)
    ensures UploadEach(backend, calls, history).outcome.Err? ==>
            StoppedAtLast(backend, history, UploadEach(backend, calls, history))
    decreases |calls|
  {
    if calls != [] {
      var call := calls[0];
      if backend(history, call).Ok? {
        var rest := UploadEach(backend, calls[1..], history + [call]);
        UploadEachFailure(backend, calls[1..], history + [call]);
        if rest.outcome.Err? {
          StoppedAtLastCons(backend, history, call, rest);
        }
      } else {
        var run := UploadEach(backend, calls, history);
        assert run.attempted == [call];
        assert run.attempted[..0] == [] && history + [] == history;
      }
    }
  }

  /** An accepted call in front of a run that stopped at its last call
      gives a run that stopped at its last call. */
  lemma StoppedAtLastCons(backend: Backend, history: seq<UploadCall>, call: UploadCall, rest: Run)
    requires backend(history, call).Ok?
    requires StoppedAtLast(backend, history + [call], rest)
    ensures StoppedAtLast(backend, history, Run([call] + rest.attempted, rest.outcome))
  {
    var m := |rest.attempted|;
    var all := [call] + rest.attempted;
    assert all[..m] == [call] + rest.attempted[..m - 1];
    assert all[m] == rest.attempted[m - 1];
    assert history + all[..m] == (history + [call]) + rest.attempted[..m - 1];
    AcceptedCons(backend, history, call, rest.attempted[..m - 1]);
  }

  /** Fail-fast: when the backend accepts the first `k` calls and refuses
      call `k`, exactly the calls up to and including `k` are made and the
      run fails with call `k`'s path; later calls are never made. */
  lemma {:induction false} UploadEachStopsAtFirstFailure(backend: Backend, calls: seq<UploadCall>,
                                                         history: seq<UploadCall>, k: nat)
    requires k < |calls|
    requires AllAccepted(backend, history, calls[..k])
    requires backend(history + calls[..k], calls[k]).Err?
    ensures UploadEach(backend, calls, history) ==
            Run(calls[..k + 1],
                Err(UploadFailed(calls[k].path, backend(history + calls[..k], calls[k]).error)))
    decreases k
  {
    var call := calls[0];
    assert calls[..0] == [] && history + [] == history;
    if k == 0 {
      assert calls[..1] == [call];
    } else {
      assert backend(history + calls[..0], calls[0]).Ok?;
      var tail := calls[1..];
      assert calls[..k] == [call] + tail[..k - 1];
      AcceptedCons(backend, history, call, tail[..k - 1]);
      assert history + calls[..k] == (history + [call]) + tail[..k - 1];
      UploadEachStopsAtFirstFailure(backend, tail, history + [call], k - 1);
      assert calls[..k + 1] == [call] + tail[..k];
    }
  }

  /** What `upload_release` does once discovery has produced `discovered`:
      a failure is passed on and an empty catalog refused, both before any
      upload; otherwise the catalog is uploaded in order, stopping at the
      first failure. */
  function UploadCatalog(fs: FileSystem, backend: Backend, discovered: Result<seq<Asset>, Error>)
    : (run: Run)
    ensures discovered.Err? ==> run == Run([], Err(discovered.error))
    ensures discovered == Ok([]) ==> run == Run([], Err(NoAssetsFound))
    ensures run.attempted != [] ==>
              && discovered.Ok? && |run.attempted| <= |discovered.value|
              && run.attempted == CallsFor(fs, discovered.value)[..|run.attempted|]
    ensures run.outcome.Ok? <==>
              && discovered.Ok? && discovered.value != []
              && run.attempted == CallsFor(fs, discovered.value)
              && AllAccepted(backend, [], run.attempted)
    ensures discovered.Ok? && discovered.value != [] && run.outcome.Err? ==>
              StoppedAtLast(backend, [], run)
  {
    match discovered
    case Err(e) => Run([], Err(e))
    case Ok(assets) =>
      if assets == [] then Run([], Err(NoAssetsFound))
      else
        var calls := CallsFor(fs, assets);
        UploadEachSucceedsIff(backend, calls, []);
        UploadEachFailure(backend, calls, []);
        UploadEach(backend, calls, [])
  }

  /** `upload_release`. */
  function UploadRelease(fs: FileSystem, backend: Backend, packageName: string, tag: string,
                         patterns: seq<string>): (run: Run)
    ensures var discovered := DiscoverAssets(fs, packageName, tag, patterns);
            && (discovered.Err? ==> run == Run([], Err(discovered.error)))
            && (discovered == Ok([]) ==> run == Run([], Err(NoAssetsFound)))
            && (run.outcome.Ok? <==>
                  && discovered.Ok? && discovered.value != []
                  && run.attempted == CallsFor(fs, discovered.value)
                  && AllAccepted(backend, [], run.attempted))
            && (run.attempted != [] ==>
                  && discovered.Ok? && |run.attempted| <= |discovered.value|
                  && run.attempted == CallsFor(fs, discovered.value)[..|run.attempted|])
            && (discovered.Ok? && discovered.value != [] && run.outcome.Err? ==>
                  StoppedAtLast(backend, [], run))
  {
    var discovered := DiscoverAssets(fs, packageName, tag, patterns);
    UploadCatalog(fs, backend, discovered)
  }

  /** A run that made calls and failed stopped at its last call: the
      backend accepted every earlier call, refused that one, and the error
      names that call's path. */
  lemma UploadReleaseStopsAtFailure(fs: FileSystem, backend: Backend, packageName: string,
                                    tag: string, patterns: seq<string>)
    ensures var run := UploadRelease(fs, backend, packageName, tag, patterns);
            run.attempted != [] && run.outcome.Err? ==> StoppedAtLast(backend, [], run)
  {
    var discovered := DiscoverAssets(fs, packageName, tag, patterns);
    var run := UploadCatalog(fs, backend, discovered);
    assert run == UploadRelease(fs, backend, packageName, tag, patterns);
  }

  /** Fail-fast for the whole release: when the backend accepts the first
      `k` calls of the catalog and refuses call `k`, exactly the calls up to
      and including `k` are made, and the run fails naming call `k`'s path
      with the backend's message. */
  lemma UploadReleaseStopsAtFirstFailure(fs: FileSystem, backend: Backend, packageName: string,
                                         tag: string, patterns: seq<string>, k: nat)
    ensures var discovered := DiscoverAssets(fs, packageName, tag, patterns);
            var calls := if discovered.Ok? then CallsFor(fs, discovered.value) else [];
            k < |calls| && AllAccepted(backend, [], calls[..k]) && backend(calls[..k], calls[k]).Err? ==>
              UploadRelease(fs, backend, packageName, tag, patterns) ==
              Run(calls[..k + 1], Err(UploadFailed(discovered.value[k].filePath,
                                                   backend(calls[..k], calls[k]).error)))
  {
    var discovered := DiscoverAssets(fs, packageName, tag, patterns);
    CatalogStopsAtFirstFailure(fs, backend, discovered, k);
  }

  /** Fail-fast once discovery has produced `discovered`. */
  lemma CatalogStopsAtFirstFailure(fs: FileSystem, backend: Backend,
                                   discovered: Result<seq<Asset>, Error>, k: nat)
    ensures var calls := if discovered.Ok? then CallsFor(fs, discovered.value) else [];
            k < |calls| && AllAccepted(backend, [], calls[..k]) && backend(calls[..k], calls[k]).Err? ==>
              UploadCatalog(fs, backend, discovered) ==
              Run(calls[..k + 1], Err(UploadFailed(discovered.value[k].filePath,
                                                   backend(calls[..k], calls[k]).error)))
  {
    if discovered.Ok? {
      var calls := CallsFor(fs, discovered.value);
      if k < |calls| && AllAccepted(backend, [], calls[..k]) && backend(calls[..k], calls[k]).Err? {
        assert [] + calls[..k] == calls[..k];
        UploadEachStopsAtFirstFailure(backend, calls, [], k);
      }
    }
  }

  /** Every upload call of a release carries the content type guessed from
      its path. */
  lemma UploadReleaseContentTypes(fs: FileSystem, backend: Backend, packageName: string,
                                  tag: string, patterns: seq<string>)
    ensures forall c :: c in UploadRelease(fs, backend, packageName, tag, patterns).attempted ==>
              c.contentType == GuessContentType(fs, c.path)
  {
  }

  /** A successful release had every call accepted in turn: call `i` was
      accepted after the calls before it. */
  lemma UploadReleaseAcceptedInTurn(fs: FileSystem, backend: Backend, packageName: string,
                                    tag: string, patterns: seq<string>)
    ensures var run := UploadRelease(fs, backend, packageName, tag, patterns);
            run.outcome.Ok? ==>
              forall i :: 0 <= i < |run.attempted| ==> backend(run.attempted[..i], run.attempted[i]).Ok?
  {
    var run := UploadRelease(fs, backend, packageName, tag, patterns);
    if run.outcome.Ok? {
      AcceptedInTurn(backend, run.attempted);
    }
  }

  /** Calls accepted as a sequence were each accepted after the ones before. */
  lemma AcceptedInTurn(backend: Backend, calls: seq<UploadCall>)
    requires AllAccepted(backend, [], calls)
    ensures forall i :: 0 <= i < |calls| ==> backend(calls[..i], calls[i]).Ok?
  {
    forall i | 0 <= i < |calls|
      ensures backend(calls[..i], calls[i]).Ok?
    {
      AllAcceptedEach(backend, [], calls, i);
      assert [] + calls[..i] == calls[..i];
    }
  }
}
