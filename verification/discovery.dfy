/** Asset discovery (`discover_assets` in src/uploader.rs): every pattern,
    in order, is split, resolved and turned into assets; an asset whose key
    an earlier one already took is dropped, and the first resolver failure
    aborts the whole discovery. */
module Discovery {
  import opened Results
  import opened Text
  import opened Uploader

  /** One file to upload, with the label of the pattern that found it and
      its object key. */
  datatype Asset = Asset(filePath: Path, displayName: Option<string>, key: string)

  function KeysOf(assets: seq<Asset>): set<string> {
    set a | a in assets :: a.key
  }

  lemma KeysOfCons(a: Asset, rest: seq<Asset>)
    ensures KeysOf([a] + rest) == {a.key} + KeysOf(rest)
  {
    assert forall x :: x in [a] + rest <==> x == a || x in rest;
  }

  /** No two assets share a key. */
  predicate DistinctKeys(assets: seq<Asset>) {
    forall i, j :: 0 <= i < j < |assets| ==> assets[i].key != assets[j].key
  }

  /** `c[j]` is the first entry of `c` carrying its key. */
  predicate FirstWithKey(c: seq<Asset>, j: nat)
    requires j < |c|
  {
    forall i :: 0 <= i < j ==> c[i].key != c[j].key
  }

  /** `a` is `b` with some entries left out, the rest kept in order. */
  predicate Subsequence<T(==)>(a: seq<T>, b: seq<T>)
    decreases |b|
  {
    if a == [] then true
    else if b == [] then false
    else (a[0] == b[0] && Subsequence(a[1..], b[1..])) || Subsequence(a, b[1..])
  }

  /** The assets one resolved pattern yields, before deduplication: each
      file with the pattern's label and the file's key. */
  function AssetsFor(fs: FileSystem, packageName: string, tag: string,
                     displayName: Option<string>, files: seq<Path>): (assets: seq<Asset>)
    ensures |assets| == |files|
    ensures forall i :: 0 <= i < |files| ==> assets[i].filePath == files[i]
    ensures forall a :: a in assets ==>
              a.filePath in files && a.displayName == displayName
              && a.key == GenerateKey(fs, packageName, tag, a.filePath)
  {
    seq(|files|, i requires 0 <= i < |files| =>
      Asset(files[i], displayName, GenerateKey(fs, packageName, tag, files[i])))
  }

  /** Parse one pattern and resolve its file part; the assets it yields. */
  function PatternAssets(fs: FileSystem, packageName: string, tag: string, pattern: string)
    : (r: Result<seq<Asset>, Error>)
    ensures var found := FindMatchingFiles(fs, ParsePattern(pattern).filePattern);
            && (r.Err? <==> found.Err?)
            && (r.Err? ==> r.error == found.error)
            && (r.Ok? ==> |r.value| == |found.value|)
    ensures r.Ok? ==> forall a :: a in r.value ==>
              && IsFile(fs, a.filePath)
              && a.key == GenerateKey(fs, packageName, tag, a.filePath)
              && a.displayName == ParsePattern(pattern).displayName
  {
    var parsed := ParsePattern(pattern);
    var found := FindMatchingFiles(fs, parsed.filePattern);
    if found.Err? then Err(found.error)
    else
      var assets := AssetsFor(fs, packageName, tag, parsed.displayName, found.value);
      assert forall a :: a in assets ==> a.filePath in found.value;
      Ok(assets)
  }

  /** A pattern's assets follow its resolved files one for one, in
      resolver order. */
  lemma PatternAssetsInOrder(fs: FileSystem, packageName: string, tag: string, pattern: string)
    ensures var found := FindMatchingFiles(fs, ParsePattern(pattern).filePattern);
            var r := PatternAssets(fs, packageName, tag, pattern);
            r.Ok? ==> forall i :: 0 <= i < |r.value| ==> r.value[i].filePath == found.value[i]
  {
    var parsed := ParsePattern(pattern);
    var found := FindMatchingFiles(fs, parsed.filePattern);
    if found.Ok? {
      assert PatternAssets(fs, packageName, tag, pattern)
             == Ok(AssetsFor(fs, packageName, tag, parsed.displayName, found.value));
    }
  }

  /** The inner loop of `discover_assets`: walks the candidates in order,
      keeps each whose key is not yet in `seen` and records its key. */
  function Dedup(seen: set<string>, candidates: seq<Asset>): (kept: seq<Asset>)
    ensures |kept| <= |candidates|
    decreases |candidates|
  {
    if candidates == [] then []
    else
      var a := candidates[0];
      if a.key in seen then Dedup(seen, candidates[1..])
      else [a] + Dedup(seen + {a.key}, candidates[1..])
  }

  /** What deduplication keeps: candidates only, no two with one key, and
      every key of the candidates that was not seen before. */
  lemma {:induction false} DedupSound(seen: set<string>, candidates: seq<Asset>)
    ensures var kept := Dedup(seen, candidates);
            && DistinctKeys(kept)
            && KeysOf(kept) == KeysOf(candidates) - seen
            && (forall a :: a in kept ==> a in candidates)
    decreases |candidates|
  {
    if candidates != [] {
      var a := candidates[0];
      var tail := candidates[1..];
      assert candidates == [a] + tail;
      KeysOfCons(a, tail);
      if a.key in seen {
        DedupSound(seen, tail);
      } else {
        var rest := Dedup(seen + {a.key}, tail);
        DedupSound(seen + {a.key}, tail);
        KeysOfCons(a, rest);
        DistinctCons(a, rest);
      }
    }
  }

  /** Putting an asset with a new key in front keeps the keys distinct. */
  lemma DistinctCons(a: Asset, rest: seq<Asset>)
    requires DistinctKeys(rest) && a.key !in KeysOf(rest)
    ensures DistinctKeys([a] + rest)
  {
    var s := [a] + rest;
    forall i, j | 0 <= i < j < |s|
      ensures s[i].key != s[j].key
    {
      assert s[j] == rest[j - 1];
      if i == 0 {
        assert rest[j - 1] in rest;
      } else {
        assert s[i] == rest[i - 1];
      }
    }
  }

  /** `x` is the first entry of `c` carrying its key, and that key is not
      in `seen`. */
  predicate FirstUnseen(seen: set<string>, c: seq<Asset>, x: Asset) {
    exists j :: 0 <= j < |c| && c[j] == x && x.key !in seen && FirstWithKey(c, j)
  }

  /** Every kept asset is the first candidate carrying its key, and its
      key was not already seen. */
  lemma DedupKeepsFirst(seen: set<string>, c: seq<Asset>)
    ensures forall k :: 0 <= k < |Dedup(seen, c)| ==> FirstUnseen(seen, c, Dedup(seen, c)[k])
  {
    forall k | 0 <= k < |Dedup(seen, c)|
      ensures FirstUnseen(seen, c, Dedup(seen, c)[k])
    {
      DedupEntryIsFirst(seen, c, k);
    }
  }

  lemma {:induction false} DedupEntryIsFirst(seen: set<string>, c: seq<Asset>, k: nat)
    requires k < |Dedup(seen, c)|
    ensures FirstUnseen(seen, c, Dedup(seen, c)[k])
    decreases |c|
  {
    var a := c[0];
    var kept := Dedup(seen, c);
    if a.key !in seen && k == 0 {
      assert c[0] == kept[0] && FirstWithKey(c, 0);
    } else {
      var seen' := if a.key in seen then seen else seen + {a.key};
      var k' := if a.key in seen then k else k - 1;
      var rest := Dedup(seen', c[1..]);
      assert kept[k] == rest[k'];
      DedupEntryIsFirst(seen', c[1..], k');
      var j' :| 0 <= j' < |c[1..]| && c[1..][j'] == rest[k'] && rest[k'].key !in seen'
                && FirstWithKey(c[1..], j');
      assert c[j' + 1] == kept[k];
      assert FirstWithKey(c, j' + 1) by {
        forall i | 0 <= i < j' + 1
          ensures c[i].key != c[j' + 1].key
        {
          if i > 0 {
            assert c[i] == c[1..][i - 1];
          }
        }
      }
    }
  }

  /** Deduplication keeps the candidates' order. */
  lemma {:induction false} DedupSubsequence(seen: set<string>, c: seq<Asset>)
    ensures Subsequence(Dedup(seen, c), c)
    decreases |c|
  {
    if c != [] {
      var a := c[0];
      if a.key in seen {
        DedupSubsequence(seen, c[1..]);
        SubsequenceOfTail(Dedup(seen, c[1..]), c);
      } else {
        DedupSubsequence(seen + {a.key}, c[1..]);
        var kept := Dedup(seen, c);
        assert kept[0] == c[0] && kept[1..] == Dedup(seen + {a.key}, c[1..]);
      }
    }
  }

  lemma SubsequenceOfTail<T>(a: seq<T>, b: seq<T>)
    requires b != [] && Subsequence(a, b[1..])
    ensures Subsequence(a, b)
  {
  }

  /** The keys seen after `[x] + tail`, as the dedup loop accumulates them. */
  lemma SeenAfterCons(seen: set<string>, x: Asset, tail: seq<Asset>)
    ensures (seen + {x.key}) + KeysOf(tail) == seen + KeysOf([x] + tail)
    ensures x.key in seen ==> seen + KeysOf(tail) == seen + KeysOf([x] + tail)
  {
    KeysOfCons(x, tail);
  }

  /** Deduplicating a concatenation deduplicates the first part, then the
      second against every key the first part produced. This is why the
      `seen` set is shared by all patterns. */
  lemma {:induction false} DedupAppend(seen: set<string>, a: seq<Asset>, b: seq<Asset>)
    ensures Dedup(seen, a + b) == Dedup(seen, a) + Dedup(seen + KeysOf(a), b)
    decreases |a|
  {
    if a == [] {
      assert a + b == b;
      assert KeysOf(a) == {};
      assert seen + KeysOf(a) == seen;
    } else {
      var x := a[0];
      var tail := a[1..];
      assert (a + b)[0] == x && (a + b)[1..] == tail + b;
      if x.key in seen {
        calc {
          Dedup(seen, a + b);
          Dedup(seen, tail + b);
          { DedupAppend(seen, tail, b); }
          Dedup(seen, tail) + Dedup(seen + KeysOf(tail), b);
          { assert a == [x] + tail; SeenAfterCons(seen, x, tail); }
          Dedup(seen, tail) + Dedup(seen + KeysOf(a), b);
          Dedup(seen, a) + Dedup(seen + KeysOf(a), b);
        }
      } else {
        var seen' := seen + {x.key};
        calc {
          Dedup(seen, a + b);
          [x] + Dedup(seen', tail + b);
          { DedupAppend(seen', tail, b); }
          [x] + (Dedup(seen', tail) + Dedup(seen' + KeysOf(tail), b));
          { assert a == [x] + tail; SeenAfterCons(seen, x, tail); }
          ([x] + Dedup(seen', tail)) + Dedup(seen + KeysOf(a), b);
          Dedup(seen, a) + Dedup(seen + KeysOf(a), b);
        }
      }
    }
  }

  /** What each pattern resolves to, pattern by pattern. */
  function Resolutions(fs: FileSystem, packageName: string, tag: string, patterns: seq<string>)
    : (rs: seq<Result<seq<Asset>, Error>>)
    ensures |rs| == |patterns|
    ensures forall i :: 0 <= i < |patterns| ==> rs[i] == PatternAssets(fs, packageName, tag, patterns[i])
  {
    seq(|patterns|, i requires 0 <= i < |patterns| => PatternAssets(fs, packageName, tag, patterns[i]))
  }

  /** All resolved assets in order, or the first failure. */
  function Collect(rs: seq<Result<seq<Asset>, Error>>): Result<seq<Asset>, Error> {
    if rs == [] then Ok([])
    else
      match rs[0]
      case Err(e) => Err(e)
      case Ok(first) =>
        match Collect(rs[1..])
        case Err(e) => Err(e)
        case Ok(rest) => Ok(first + rest)
  }

  /** The assets of every pattern, in pattern order and then match order,
      before deduplication. */
  function Candidates(fs: FileSystem, packageName: string, tag: string, patterns: seq<string>)
    : Result<seq<Asset>, Error>
  {
    Collect(Resolutions(fs, packageName, tag, patterns))
  }

  /** Entry `i` is the first failure of `rs`, and it is `e`. */
  predicate FirstFailure(rs: seq<Result<seq<Asset>, Error>>, i: int, e: Error) {
    && 0 <= i < |rs|
    && rs[i] == Err(e)
    && forall k :: 0 <= k < i ==> rs[k].Ok?
  }

  /** `a` is one of the assets some entry of `rs` holds. */
  predicate FromSomeEntry(rs: seq<Result<seq<Asset>, Error>>, a: Asset) {
    exists i :: 0 <= i < |rs| && rs[i].Ok? && a in rs[i].value
  }

  /** Collecting fails exactly when some entry is a failure, even if earlier
      entries matched files, and then with the first failure. */
  lemma {:induction false} CollectFailFast(rs: seq<Result<seq<Asset>, Error>>)
    ensures Collect(rs).Err? <==> exists i :: 0 <= i < |rs| && rs[i].Err?
    ensures Collect(rs).Err? ==> exists i :: FirstFailure(rs, i, Collect(rs).error)
  {
    if rs != [] {
      var tail := rs[1..];
      CollectFailFast(tail);
      match rs[0]
      case Err(e) =>
        assert FirstFailure(rs, 0, e);
      case Ok(_) =>
        var r := Collect(tail);
        if r.Err? {
          var i :| FirstFailure(tail, i, r.error);
          assert FirstFailure(rs, i + 1, r.error);
        } else {
          forall i | 0 <= i < |rs|
            ensures rs[i].Ok?
          {
            if i > 0 {
              assert rs[i] == tail[i - 1];
            }
          }
        }
    }
  }

  /** Every collected asset comes from some entry. */
  lemma {:induction false} CollectProvenance(rs: seq<Result<seq<Asset>, Error>>)
    requires Collect(rs).Ok?
    ensures forall a :: a in Collect(rs).value ==> FromSomeEntry(rs, a)
  {
    if rs != [] {
      var tail := rs[1..];
      var first := rs[0].value;
      CollectProvenance(tail);
      var rest := Collect(tail).value;
      forall a | a in first + rest
        ensures FromSomeEntry(rs, a)
      {
        if a in first {
          assert rs[0].Ok? && a in rs[0].value;
        } else {
          var i :| 0 <= i < |tail| && tail[i].Ok? && a in tail[i].value;
          assert rs[i + 1] == tail[i];
        }
      }
    }
  }

  /** The loop of `discover_assets` over the patterns' resolutions, in
      order, with the set of keys already taken: the first failure aborts
      everything, otherwise each pattern's files are deduplicated against
      every key produced before them. */
  function DiscoverFrom(rs: seq<Result<seq<Asset>, Error>>, seen: set<string>)
    : (r: Result<seq<Asset>, Error>)
    ensures r.Err? <==> Collect(rs).Err?
    ensures r.Err? ==> r.error == Collect(rs).error
    decreases |rs|
  {
    if rs == [] then Ok([])
    else
      match rs[0]
      case Err(e) => Err(e)
      case Ok(candidates) =>
        var newAssets := Dedup(seen, candidates);
        match DiscoverFrom(rs[1..], seen + KeysOf(newAssets))
        case Err(e) => Err(e)
        case Ok(more) => Ok(newAssets + more)
  }

  /** Discovery is deduplication of all candidates at once: the seen set
      carried from pattern to pattern makes the first occurrence win across
      patterns, not only within one. */
  lemma {:induction false} DiscoverFromIsDedup(rs: seq<Result<seq<Asset>, Error>>, seen: set<string>)
    ensures DiscoverFrom(rs, seen) ==
            match Collect(rs)
            case Err(e) => Err(e)
            case Ok(c) => Ok(Dedup(seen, c))
    decreases |rs|
  {
    if rs != [] {
      match rs[0]
      case Err(e) =>
      case Ok(first) =>
        var newAssets := Dedup(seen, first);
        var seen' := seen + KeysOf(newAssets);
        DedupSound(seen, first);
        assert seen' == seen + KeysOf(first);
        DiscoverFromIsDedup(rs[1..], seen');
        match Collect(rs[1..])
        case Err(e) =>
        case Ok(rest) =>
          DedupAppend(seen, first, rest);
    }
  }

  /** `discover_assets`: the deduplicated candidates, or the first
      resolver failure. */
  function DiscoverAssets(fs: FileSystem, packageName: string, tag: string, patterns: seq<string>)
    : (r: Result<seq<Asset>, Error>)
    ensures r.Ok? ==> DistinctKeys(r.value)
    ensures r.Ok? ==> forall a :: a in r.value ==>
              && IsFile(fs, a.filePath)
              && a.key == GenerateKey(fs, packageName, tag, a.filePath)
              && FromSomeEntry(Resolutions(fs, packageName, tag, patterns), a)
    ensures r.Err? <==> exists i :: 0 <= i < |patterns| && PatternAssets(fs, packageName, tag, patterns[i]).Err?
    ensures r.Err? ==> exists i :: FirstFailure(Resolutions(fs, packageName, tag, patterns), i, r.error)
    ensures r.Ok? ==> Candidates(fs, packageName, tag, patterns).Ok?
                      && r.value == Dedup({}, Candidates(fs, packageName, tag, patterns).value)
  {
    var rs := Resolutions(fs, packageName, tag, patterns);
    DiscoverFromIsDedup(rs, {});
    CollectFailFast(rs);
    var r := DiscoverFrom(rs, {});
    if r.Ok? then
      CollectProvenance(rs);
      DedupSound({}, Collect(rs).value);
      r
    else r
  }

  /** The catalog keeps, for every key the candidates produce, the first
      candidate (pattern order, then match order) carrying it, and keeps
      them in candidate order. */
  lemma DiscoverKeepsFirst(fs: FileSystem, packageName: string, tag: string, patterns: seq<string>)
    requires DiscoverAssets(fs, packageName, tag, patterns).Ok?
    ensures var c := Candidates(fs, packageName, tag, patterns).value;
            var catalog := DiscoverAssets(fs, packageName, tag, patterns).value;
            && KeysOf(catalog) == KeysOf(c)
            && (forall k :: 0 <= k < |catalog| ==> FirstUnseen({}, c, catalog[k]))
            && Subsequence(catalog, c)
  {
    var c := Candidates(fs, packageName, tag, patterns).value;
    DedupFromNothing(c);
  }

  /** Deduplicating from an empty seen set: every key survives, each
      through its first carrier, in order. */
  lemma DedupFromNothing(c: seq<Asset>)
    ensures var kept := Dedup({}, c);
            && KeysOf(kept) == KeysOf(c)
            && (forall k :: 0 <= k < |kept| ==> FirstUnseen({}, c, kept[k]))
            && Subsequence(kept, c)
  {
    DedupSound({}, c);
    DedupKeepsFirst({}, c);
    DedupSubsequence({}, c);
  }

  /** Each catalog entry carries the label of a pattern that resolved to
      its file. */
  lemma DiscoveredLabels(fs: FileSystem, packageName: string, tag: string, patterns: seq<string>, a: Asset)
    ensures var r := DiscoverAssets(fs, packageName, tag, patterns);
            r.Ok? && a in r.value ==>
              exists i :: 0 <= i < |patterns|
                && var parsed := ParsePattern(patterns[i]);
                   && a.displayName == parsed.displayName
                   && FindMatchingFiles(fs, parsed.filePattern).Ok?
                   && a.filePath in FindMatchingFiles(fs, parsed.filePattern).value
  {
    var r := DiscoverAssets(fs, packageName, tag, patterns);
    if r.Ok? && a in r.value {
      var rs := Resolutions(fs, packageName, tag, patterns);
      var i :| 0 <= i < |rs| && rs[i].Ok? && a in rs[i].value;
      assert rs[i] == PatternAssets(fs, packageName, tag, patterns[i]);
    }
  }

  /** One file gives one asset. */
  lemma AssetsForOne(fs: FileSystem, packageName: string, tag: string,
                     displayName: Option<string>, path: Path)
    ensures AssetsFor(fs, packageName, tag, displayName, [path])
            == [Asset(path, displayName, GenerateKey(fs, packageName, tag, path))]
  {
    var assets := AssetsFor(fs, packageName, tag, displayName, [path]);
    assert assets[0] == Asset(path, displayName, GenerateKey(fs, packageName, tag, path));
  }

  /** A pattern naming an existing file, with no label, yields exactly
      that file, unlabelled. */
  lemma ExactFilePattern(fs: FileSystem, packageName: string, tag: string, path: Path)
    requires '#' !in path && IsFile(fs, path)
    ensures PatternAssets(fs, packageName, tag, path)
            == Ok([Asset(path, None, GenerateKey(fs, packageName, tag, path))])
  {
    AssetsForOne(fs, packageName, tag, None, path);
    assert FindMatchingFiles(fs, path) == Ok([path]);
  }

  /** A labelled pattern whose path part has no surrounding whitespace
      parses to that path and the trimmed label. */
  lemma ParseLabelled(path: Path, shown: string)
    requires '#' !in path && Unpadded(path)
    ensures ParsePattern(path + "#" + shown) == ParsedPattern(path, Some(Trim(shown)))
  {
    TrimUnpadded(path);
    ParsePatternSplit(path, shown);
  }

  /** A labelled pattern naming an existing file (with no surrounding
      whitespace) yields that file under the trimmed label. */
  lemma LabelledFilePattern(fs: FileSystem, packageName: string, tag: string, path: Path, shown: string)
    requires '#' !in path && Unpadded(path) && IsFile(fs, path)
    ensures PatternAssets(fs, packageName, tag, path + "#" + shown)
            == Ok([Asset(path, Some(Trim(shown)), GenerateKey(fs, packageName, tag, path))])
  {
    ParseLabelled(path, shown);
    AssetsForOne(fs, packageName, tag, Some(Trim(shown)), path);
    assert FindMatchingFiles(fs, path) == Ok([path]);
  }

  /** Collecting two successful resolutions concatenates them. */
  lemma CollectTwo(x: seq<Asset>, y: seq<Asset>)
    ensures Collect([Ok(x), Ok(y)]) == Ok(x + y)
  {
    var rs: seq<Result<seq<Asset>, Error>> := [Ok(x), Ok(y)];
    assert rs[1..] == [Ok(y)] && rs[1..][1..] == [];
    assert Collect(rs[1..][1..]) == Ok([]);
    assert y + [] == y;
    assert Collect(rs[1..]) == Ok(y);
  }

  /** Of two candidates, the second is dropped exactly when it repeats the
      first one's key. */
  lemma DedupTwo(a: Asset, b: Asset)
    ensures Dedup({}, [a, b]) == if a.key == b.key then [a] else [a, b]
  {
    var c := [a, b];
    var seen: set<string> := {} + {a.key};
    assert c[0] == a && c[1..] == [b] && [b][1..] == [];
    assert Dedup({}, c) == [a] + Dedup(seen, [b]);
    assert Dedup(seen, [b]) == if b.key in seen then [] else [b];
  }

  /** Discovery over two single-asset resolutions. */
  lemma DiscoverFromTwo(a: Asset, b: Asset)
    ensures DiscoverFrom([Ok([a]), Ok([b])], {}) == Ok(if a.key == b.key then [a] else [a, b])
  {
    var rs: seq<Result<seq<Asset>, Error>> := [Ok([a]), Ok([b])];
    CollectTwo([a], [b]);
    DedupTwo(a, b);
    DiscoverFromIsDedup(rs, {});
  }

  /** Two patterns resolve in their order. */
  lemma ResolutionsTwo(fs: FileSystem, packageName: string, tag: string, first: string, second: string)
    ensures Resolutions(fs, packageName, tag, [first, second])
            == [PatternAssets(fs, packageName, tag, first), PatternAssets(fs, packageName, tag, second)]
  {
    var ps := [first, second];
    var rs := Resolutions(fs, packageName, tag, ps);
    assert ps[0] == first && ps[1] == second;
    PairOf(rs);
  }

  /** A two-element sequence is the display of its elements. */
  lemma PairOf<T>(s: seq<T>)
    requires |s| == 2
    ensures s == [s[0], s[1]]
  {
  }

  /** Two patterns resolving to one asset each: both are kept unless
      their keys collide, in which case only the first is. */
  lemma DiscoverTwo(fs: FileSystem, packageName: string, tag: string,
                    first: string, second: string, a: Asset, b: Asset)
    ensures PatternAssets(fs, packageName, tag, first) == Ok([a])
            && PatternAssets(fs, packageName, tag, second) == Ok([b]) ==>
              DiscoverAssets(fs, packageName, tag, [first, second])
              == Ok(if a.key == b.key then [a] else [a, b])
  {
    if PatternAssets(fs, packageName, tag, first) == Ok([a])
       && PatternAssets(fs, packageName, tag, second) == Ok([b])
    {
      var rs := Resolutions(fs, packageName, tag, [first, second]);
      ResolutionsTwo(fs, packageName, tag, first, second);
      DiscoverFromTwo(a, b);
      assert DiscoverAssets(fs, packageName, tag, [first, second]) == DiscoverFrom(rs, {});
    }
  }

  /** Two files with the same name in different directories collide: only
      the first is kept. */
  lemma SameNameCollides(fs: FileSystem)
    requires IsFile(fs, "a/x.zip") && IsFile(fs, "b/x.zip")
    requires fs.fileName("a/x.zip") == Some("x.zip") && fs.fileName("b/x.zip") == Some("x.zip")
    ensures DiscoverAssets(fs, "app", "v1", ["a/x.zip", "b/x.zip"])
            == Ok([Asset("a/x.zip", None, "app/v1/x.zip")])
  {
    assert GenerateKey(fs, "app", "v1", "a/x.zip") == "app/v1/x.zip";
    assert GenerateKey(fs, "app", "v1", "b/x.zip") == "app/v1/x.zip";
    ExactFilePattern(fs, "app", "v1", "a/x.zip");
    ExactFilePattern(fs, "app", "v1", "b/x.zip");
    DiscoverTwo(fs, "app", "v1", "a/x.zip", "b/x.zip",
                Asset("a/x.zip", None, "app/v1/x.zip"), Asset("b/x.zip", None, "app/v1/x.zip"));
  }

  /** `build/app.sha256#checksum` resolves to that file, labelled
      `checksum`. */
  lemma ChecksumPattern(fs: FileSystem)
    requires IsFile(fs, "build/app.sha256")
    requires fs.fileName("build/app.sha256") == Some("app.sha256")
    ensures PatternAssets(fs, "app", "v2.0.0", "build/app.sha256#checksum")
            == Ok([Asset("build/app.sha256", Some("checksum"), "app/v2.0.0/app.sha256")])
  {
    var path, shown := "build/app.sha256", "checksum";
    ChecksumPatternParts();
    assert GenerateKey(fs, "app", "v2.0.0", path) == "app/v2.0.0/app.sha256";
    LabelledFilePattern(fs, "app", "v2.0.0", path, shown);
  }

  /** The text facts behind `build/app.sha256#checksum`: the path has no
      `#` and no surrounding whitespace, and the label is already trimmed. */
  lemma ChecksumPatternParts()
    ensures "build/app.sha256" + "#" + "checksum" == "build/app.sha256#checksum"
    ensures '#' !in "build/app.sha256" && Unpadded("build/app.sha256")
    ensures Trim("checksum") == "checksum"
  {
    var path, shown := "build/app.sha256", "checksum";
    assert Unpadded(path) by {
      assert path[0] == 'b' && path[|path| - 1] == '6';
    }
    assert path + "#" + shown == "build/app.sha256#checksum";
    assert '#' !in path;
    assert Trim(shown) == shown by {
      assert shown[0] == 'c' && shown[|shown| - 1] == 'm';
      TrimUnpadded(shown);
    }
  }

  /** Two patterns, one of them labelled, yield two assets under
      `app/v2.0.0/`, in pattern order. */
  lemma LabelledPatternsExample(fs: FileSystem)
    requires IsFile(fs, "build/app.zip") && IsFile(fs, "build/app.sha256")
    requires fs.fileName("build/app.zip") == Some("app.zip")
    requires fs.fileName("build/app.sha256") == Some("app.sha256")
    ensures DiscoverAssets(fs, "app", "v2.0.0", ["build/app.zip", "build/app.sha256#checksum"])
            == Ok([Asset("build/app.zip", None, "app/v2.0.0/app.zip"),
                   Asset("build/app.sha256", Some("checksum"), "app/v2.0.0/app.sha256")])
  {
    assert GenerateKey(fs, "app", "v2.0.0", "build/app.zip") == "app/v2.0.0/app.zip";
    ExactFilePattern(fs, "app", "v2.0.0", "build/app.zip");
    ChecksumPattern(fs);
    DiscoverTwo(fs, "app", "v2.0.0", "build/app.zip", "build/app.sha256#checksum",
                Asset("build/app.zip", None, "app/v2.0.0/app.zip"),
                Asset("build/app.sha256", Some("checksum"), "app/v2.0.0/app.sha256"));
  }
}
