/** RansomwareSymptomInjector: a breadth-first walk over the configured
    directories, rewriting every file whose path matches a pattern block by
    block, XORing each byte with a key when encryption is on.

    The file system is a parameter: `fs` gives the tree below a configured
    path, a file's bytes are handed in, and the path matcher is the
    predicate `matches`. Temporary files, the final move, the busy wait and
    the sleeps between blocks are left out.
 */
module Ransomware {
  import opened Outcomes
  import opened JavaText
  import opened Config

  /** A file, or a directory with its listing in listing order. */
  datatype Node = File(path: string) | Directory(path: string, children: seq<Node>)

  /** What one step of encryptNextFile did. */
  datatype Action = Idle | Listed(directory: string, added: nat) | Considered(file: string, encrypted: bool)

  datatype Injector = Injector(
    blockProcess: string, blockSize: int, queue: seq<Node>, pattern: string, encrypt: bool, key: bv8)

  // ---------------------------------------------------------------------
  // Measures of a forest
  // ---------------------------------------------------------------------

  /** The number of nodes in a forest. */
  function SizeAll(ns: seq<Node>): nat
    decreases ns
  {
    if |ns| == 0 then 0 else Size(ns[0]) + SizeAll(ns[1..])
  }

  function Size(n: Node): (k: nat)
    ensures 1 <= k
    decreases n
  {
    match n
    case File(_) => 1
    case Directory(_, cs) => 1 + SizeAll(cs)
  }

  /** The paths of the files in a forest, directories excluded. */
  function FilesAll(ns: seq<Node>): multiset<string>
    decreases ns
  {
    if |ns| == 0 then multiset{} else Files(ns[0]) + FilesAll(ns[1..])
  }

  function Files(n: Node): multiset<string>
    decreases n
  {
    match n
    case File(p) => multiset{p}
    case Directory(_, cs) => FilesAll(cs)
  }

  lemma {:induction false} SizeAllAppend(a: seq<Node>, b: seq<Node>)
    ensures SizeAll(a + b) == SizeAll(a) + SizeAll(b)
    ensures FilesAll(a + b) == FilesAll(a) + FilesAll(b)
    decreases |a|
  {
    if |a| == 0 {
      assert a + b == b;
    } else {
      assert (a + b)[0] == a[0];
      assert (a + b)[1..] == a[1..] + b;
      SizeAllAppend(a[1..], b);
    }
  }

  // ---------------------------------------------------------------------
  // The work queue
  // ---------------------------------------------------------------------

  /** The file of a Considered action, as a multiset. */
  function ConsideredFile(a: Action): multiset<string> {
    if a.Considered? then multiset{a.file} else multiset{}
  }

  /** encryptNextFile: nothing on an empty queue; otherwise the head is
      removed, a directory's listing goes to the tail, and a file is
      encrypted exactly when its path matches. Every step on a non-empty
      queue takes one node off the forest and keeps every other file. */
  function Step(queue: seq<Node>, matches: string -> bool): (r: (seq<Node>, Action))
    ensures |queue| == 0 ==> r == (queue, Idle)
    ensures |queue| > 0 ==> |r.0| >= |queue| - 1 && r.0[..|queue| - 1] == queue[1..]
    ensures |queue| > 0 && queue[0].Directory? ==>
      r.0[|queue| - 1..] == queue[0].children && r.1 == Listed(queue[0].path, |queue[0].children|)
    ensures |queue| > 0 && queue[0].File? ==>
      |r.0| == |queue| - 1 && r.1 == Considered(queue[0].path, matches(queue[0].path))
    ensures |queue| > 0 ==> SizeAll(r.0) + 1 == SizeAll(queue)
    ensures |queue| > 0 ==> FilesAll(r.0) + ConsideredFile(r.1) == FilesAll(queue)
  {
    if |queue| == 0 then (queue, Idle)
    else
      var rest := queue[1..];
      match queue[0]
      case Directory(p, cs) =>
        SizeAllAppend(rest, cs);
        assert (rest + cs)[..|queue| - 1] == rest;
        (rest + cs, Listed(p, |cs|))
      case File(p) =>
        assert rest[..|queue| - 1] == rest;
        (rest, Considered(p, matches(p)))
  }

  /** The queue after k steps. */
  function Iterate(queue: seq<Node>, matches: string -> bool, k: nat): seq<Node>
    decreases k
  {
    if k == 0 then queue else Iterate(Step(queue, matches).0, matches, k - 1)
  }

  /** On a finite tree the queue is empty after exactly one step per node,
      and not before. */
  lemma {:induction false} EmptiesAfterOneStepPerNode(queue: seq<Node>, matches: string -> bool, k: nat)
    ensures k < SizeAll(queue) ==> |Iterate(queue, matches, k)| > 0
    ensures k >= SizeAll(queue) ==> Iterate(queue, matches, k) == []
    decreases k
  {
    if k > 0 {
      if |queue| == 0 {
        EmptyStaysEmpty(queue, matches, k);
      } else {
        EmptiesAfterOneStepPerNode(Step(queue, matches).0, matches, k - 1);
      }
    }
  }

  lemma {:induction false} EmptyStaysEmpty(queue: seq<Node>, matches: string -> bool, k: nat)
    requires |queue| == 0
    ensures Iterate(queue, matches, k) == []
    decreases k
  {
    if k > 0 {
      EmptyStaysEmpty(Step(queue, matches).0, matches, k - 1);
    }
  }

  /** One pass of the loop in run: a step only while symptoms are being
      generated; otherwise the thread sleeps and nothing changes. */
  function RunPass(queue: seq<Node>, generate: bool, matches: string -> bool): (r: (seq<Node>, Action))
    ensures !generate ==> r == (queue, Idle)
    ensures generate ==> r == Step(queue, matches)
    ensures r.1.Considered? ==> generate && |queue| > 0 && queue[0] == File(r.1.file)
  {
    if generate then Step(queue, matches) else (queue, Idle)
  }

  /** The steps until the queue is empty. */
  function Drain(queue: seq<Node>, matches: string -> bool): (actions: seq<Action>)
    ensures |actions| == SizeAll(queue)
    ensures ConsideredFiles(actions) == FilesAll(queue)
    ensures forall i | 0 <= i < |actions| :: actions[i].Considered? ==> actions[i].encrypted == matches(actions[i].file)
    decreases SizeAll(queue)
  {
    if |queue| == 0 then []
    else
      var (next, a) := Step(queue, matches);
      var rest := Drain(next, matches);
      assert ([a] + rest)[1..] == rest;
      [a] + rest
  }

  /** The files the actions considered, with multiplicity. */
  function ConsideredFiles(actions: seq<Action>): multiset<string> {
    if |actions| == 0 then multiset{} else ConsideredFile(actions[0]) + ConsideredFiles(actions[1..])
  }

  // ---------------------------------------------------------------------
  // The block transform
  // ---------------------------------------------------------------------

  /** The bytes a block turns into: XORed with the key when encryption is
      on, copied otherwise. */
  function Transform(data: seq<bv8>, encrypt: bool, key: bv8): (out: seq<bv8>)
    ensures |out| == |data|
    ensures !encrypt ==> out == data
    ensures encrypt ==> forall i | 0 <= i < |data| :: out[i] == data[i] ^ key
  {
    if encrypt then seq(|data|, i requires 0 <= i < |data| => data[i] ^ key) else data
  }

  /** Applying the transform twice gives the input back. */
  lemma TransformInvolution(data: seq<bv8>, encrypt: bool, key: bv8)
    ensures Transform(Transform(data, encrypt, key), encrypt, key) == data
  {
    if encrypt {
      forall i | 0 <= i < |data| ensures Transform(Transform(data, encrypt, key), encrypt, key)[i] == data[i] {
        XorTwice(data[i], key);
      }
    }
  }

  lemma XorTwice(b: bv8, key: bv8)
    ensures (b ^ key) ^ key == b
  {
  }

  lemma TransformAppend(a: seq<bv8>, b: seq<bv8>, encrypt: bool, key: bv8)
    ensures Transform(a + b, encrypt, key) == Transform(a, encrypt, key) + Transform(b, encrypt, key)
  {
    var whole, parts := Transform(a + b, encrypt, key), Transform(a, encrypt, key) + Transform(b, encrypt, key);
    assert |whole| == |parts|;
    forall i | 0 <= i < |whole| ensures whole[i] == parts[i] {
      if i < |a| {
        assert (a + b)[i] == a[i];
      } else {
        assert (a + b)[i] == b[i - |a|];
      }
    }
  }

  /** The read/transform/write loop of encrypt: blocks of blockSize bytes
      (the last one shorter) until the read reports the end; only blocks
      with bytes in them are written. The output is the whole input,
      transformed, whatever the block size. */
  method CopyBlocks(data: seq<bv8>, blockSize: nat, encrypt: bool, key: bv8) returns (out: seq<bv8>)
    requires 0 < blockSize
    ensures out == Transform(data, encrypt, key)
    ensures |out| == |data|
  {
    var pos := 0;
    var bytesRead := 0;
    out := [];
    while bytesRead != -1
      invariant 0 <= pos <= |data|
      invariant out == Transform(data[..pos], encrypt, key)
      invariant bytesRead == -1 ==> pos == |data|
      decreases 2 * (|data| - pos) + (if bytesRead == -1 then 0 else 1)
    {
      if pos == |data| {
        bytesRead := -1;
      } else {
        var n := if |data| - pos < blockSize then |data| - pos else blockSize;
        var block := Transform(data[pos..pos + n], encrypt, key);
        TransformNextBlock(data, pos, n, encrypt, key);
        out := out + block;
        pos := pos + n;
        bytesRead := n;
      }
    }
    assert data[..pos] == data;
  }

  /** The transformed prefix grows by the transformed next block. */
  lemma TransformNextBlock(data: seq<bv8>, pos: nat, n: nat, encrypt: bool, key: bv8)
    requires pos + n <= |data|
    ensures Transform(data[..pos], encrypt, key) + Transform(data[pos..pos + n], encrypt, key)
         == Transform(data[..pos + n], encrypt, key)
  {
    TransformAppend(data[..pos], data[pos..pos + n], encrypt, key);
    assert data[..pos] + data[pos..pos + n] == data[..pos + n];
  }

  /** What encrypt leaves behind: the rewritten bytes; the file unchanged
      when new byte[blockSize] throws (the exception is reported and
      swallowed); no end when blockSize is 0, as every read returns 0. */
  datatype FileOutcome = Rewritten(bytes: seq<bv8>) | Unchanged | Hangs

  function EncryptFile(inj: Injector, data: seq<bv8>): (r: FileOutcome)
    ensures inj.blockSize < 0 <==> r.Unchanged?
    ensures inj.blockSize == 0 <==> r.Hangs?
    ensures r.Rewritten? ==> r.bytes == Transform(data, inj.encrypt, inj.key)
  {
    if inj.blockSize < 0 then Unchanged
    else if inj.blockSize == 0 then Hangs
    else Rewritten(Transform(data, inj.encrypt, inj.key))
  }

  // ---------------------------------------------------------------------
  // configure
  // ---------------------------------------------------------------------

  const Required: seq<string> := ["BlockAccessInterarrivalProcess", "BlockAccessInterarrivalProcessConfig",
                                  "blockSize", "processDelay", "directories", "namePatterns"]

  /** The work queue the configured directories start: one node per entry,
      in order. */
  function InitialQueue(directories: seq<string>, fs: string -> Node): (q: seq<Node>)
    ensures |q| == |directories| && forall i | 0 <= i < |q| :: q[i] == fs(directories[i])
  {
    seq(|directories|, i requires 0 <= i < |directories| => fs(directories[i]))
  }

  /** FileSystems.getDefault().getPathMatcher: the text must be
      `syntax:pattern`, with a non-empty syntax that is glob or regex in
      any case; otherwise it throws. */
  predicate MatcherAccepts(text: string) {
    var colon := Find(text, ':');
    0 < colon < |text| && AsciiLower(text[..colon]) in {"glob", "regex"}
  }

  /** Whether encryption is asked for: `encrypt` is present and true. */
  predicate Asked(config: ConfigMap) {
    "encrypt" in config && ParseBoolean(config["encrypt"])
  }

  /** Whether encryption ends up on: asked for, and not vetoed by a
      required flag (trimmed) missing from the command line. */
  predicate EncryptOn(config: ConfigMap, flags: set<string>) {
    Asked(config) && !("requiredFlag" in config && Trim(config["requiredFlag"]) !in flags)
  }

  /** RansomwareSymptomInjector.configure. */
  function Configure(config: ConfigMap, flags: set<string>, loads: string -> bool, fs: string -> Node): (r: Result<Injector>)
    ensures !CheckConfigRequired(config, Required) ==> r.Fatal?
    ensures CheckConfigRequired(config, Required) ==>
      (r.Ok? <==> && loads(config["BlockAccessInterarrivalProcess"]) && ParseInt(config["blockSize"]).Some?
                  && ParseDouble(config["processDelay"]).Some? && MatcherAccepts(config["namePatterns"])
                  && ReadKey(config, Asked(config)).Ok?)
    ensures (CheckConfigRequired(config, Required) && "encrypt" in config && ParseBoolean(config["encrypt"])
             && "key" !in config) ==> r.Fatal?
    ensures r.Ok? ==> CheckConfigRequired(config, Required) && loads(config["BlockAccessInterarrivalProcess"])
    ensures r.Ok? ==> r.value.blockProcess == config["BlockAccessInterarrivalProcess"]
    ensures r.Ok? ==> r.value.key == ReadKey(config, Asked(config)).value
    ensures r.Ok? ==> ParseInt(config["blockSize"]) == Some(r.value.blockSize) && ParseDouble(config["processDelay"]).Some?
    ensures r.Ok? ==> r.value.queue == InitialQueue(ParseStringArray(config["directories"]), fs)
    ensures r.Ok? ==> r.value.pattern == config["namePatterns"] && MatcherAccepts(r.value.pattern)
    ensures (CheckConfigRequired(config, Required) && !MatcherAccepts(config["namePatterns"])) ==> r.Fatal?
    ensures r.Ok? ==> (r.value.encrypt <==> EncryptOn(config, flags))
    ensures r.Ok? && "encrypt" in config && ParseBoolean(config["encrypt"]) ==>
      "key" in config && ParseByte(config["key"]).Some? && r.value.key == LowByte(ParseByte(config["key"]).value)
  {
    if !CheckConfigRequired(config, Required) then Fatal("Incomplete configuration.") else
    :- Need(loads(config["BlockAccessInterarrivalProcess"]), "ClassNotFoundException");
    var blockSize :- FromOption(ParseInt(config["blockSize"]), "NumberFormatException");
    :- Need(ParseDouble(config["processDelay"]).Some?, "NumberFormatException");
    var queue := InitialQueue(ParseStringArray(config["directories"]), fs);
    :- Need(MatcherAccepts(config["namePatterns"]), "IllegalArgumentException");
    var asked := Asked(config);
    var key :- ReadKey(config, asked);
    var vetoed := "requiredFlag" in config && Trim(config["requiredFlag"]) !in flags;
    Ok(Injector(config["BlockAccessInterarrivalProcess"], blockSize, queue, config["namePatterns"], asked && !vetoed, key))
  }

  /** The key, read only when encryption is asked for: then it must be
      present and a byte. */
  function ReadKey(config: ConfigMap, asked: bool): (r: Result<bv8>)
    ensures !asked ==> r == Ok(0)
    ensures asked ==> (r.Ok? <==> "key" in config && ParseByte(config["key"]).Some?)
    ensures asked && r.Ok? ==> r.value == LowByte(ParseByte(config["key"]).value)
  {
    if !asked then Ok(0)
    else
      :- Need("key" in config, "Parameter `key' must be specified when `encrypt = true'.");
      var k :- FromOption(ParseByte(config["key"]), "NumberFormatException");
      Ok(LowByte(k))
  }

  /** With encryption off every considered file is copied unchanged. */
  lemma NoEncryptCopies(config: ConfigMap, flags: set<string>, loads: string -> bool, fs: string -> Node, inj: Injector, data: seq<bv8>)
    requires Configure(config, flags, loads, fs) == Ok(inj) && !EncryptOn(config, flags) && 0 < inj.blockSize
    ensures EncryptFile(inj, data) == Rewritten(data)
  {
  }

  const BlockConfigKey: string := "BlockAccessInterarrivalProcessConfig"

  /** Two configurations hold the same entry for `k`: both lack it, or both
      map it to the same value. */
  predicate SameEntry(a: ConfigMap, b: ConfigMap, k: string) {
    (k in a <==> k in b) && (k in a ==> a[k] == b[k])
  }

  /** Configurations with the same entries for every key configure reads,
      and both holding `BlockAccessInterarrivalProcessConfig` or both
      lacking it, give the same answers to each of its reads. */
  lemma SameReads(a: ConfigMap, b: ConfigMap, flags: set<string>)
    requires && SameEntry(a, b, "BlockAccessInterarrivalProcess") && (BlockConfigKey in a <==> BlockConfigKey in b)
             && SameEntry(a, b, "blockSize") && SameEntry(a, b, "processDelay") && SameEntry(a, b, "directories")
             && SameEntry(a, b, "namePatterns") && SameEntry(a, b, "encrypt") && SameEntry(a, b, "key")
             && SameEntry(a, b, "requiredFlag")
    ensures CheckConfigRequired(a, Required) == CheckConfigRequired(b, Required)
    ensures Asked(a) == Asked(b) && EncryptOn(a, flags) == EncryptOn(b, flags)
    ensures ReadKey(a, Asked(b)) == ReadKey(b, Asked(b))
  {
  }

  /** Replacing the value of `BlockAccessInterarrivalProcessConfig` keeps
      every other entry. */
  lemma UpdateKeepsOtherEntries(config: ConfigMap, other: string, k: string)
    requires BlockConfigKey in config && k != BlockConfigKey
    ensures SameEntry(config[BlockConfigKey := other], config, k)
  {
  }

  /** As written, the required `BlockAccessInterarrivalProcessConfig` is
      never read: whatever it names, configure fails on the same
      configurations and builds the same injector, and the block-access
      process keeps its defaults. */
  lemma BlockConfigIgnored(config: ConfigMap, flags: set<string>, loads: string -> bool, fs: string -> Node, other: string)
    requires BlockConfigKey in config
    ensures Configure(config[BlockConfigKey := other], flags, loads, fs).Ok? <==> Configure(config, flags, loads, fs).Ok?
    ensures Configure(config[BlockConfigKey := other], flags, loads, fs).Ok? ==>
      Configure(config[BlockConfigKey := other], flags, loads, fs).value == Configure(config, flags, loads, fs).value
  {
    var changed := config[BlockConfigKey := other];
    UpdateKeepsOtherEntries(config, other, "BlockAccessInterarrivalProcess");
    UpdateKeepsOtherEntries(config, other, "blockSize");
    UpdateKeepsOtherEntries(config, other, "processDelay");
    UpdateKeepsOtherEntries(config, other, "directories");
    UpdateKeepsOtherEntries(config, other, "namePatterns");
    UpdateKeepsOtherEntries(config, other, "encrypt");
    UpdateKeepsOtherEntries(config, other, "key");
    UpdateKeepsOtherEntries(config, other, "requiredFlag");
    SameReads(changed, config, flags);
  }

  /** configure as evidently intended: like the timeout process of the
      command injector, the block-access process is configured with the
      table read from the file `BlockAccessInterarrivalProcessConfig` names.
      `files` reads a configuration file; `blockConfigures` says whether the
      process accepts its table. The result pairs the injector with that
      table. */
  function ConfigureIntended(config: ConfigMap, flags: set<string>, loads: string -> bool, fs: string -> Node,
                             files: string -> ConfigMap, blockConfigures: ConfigMap -> bool): (r: Result<(Injector, ConfigMap)>)
    ensures r.Ok? <==> && Configure(config, flags, loads, fs).Ok?
                       && blockConfigures(files(config[BlockConfigKey]))
    ensures r.Ok? ==> r.value.0 == Configure(config, flags, loads, fs).value
    ensures r.Ok? ==> BlockConfigKey in config && r.value.1 == files(config[BlockConfigKey])
  {
    var inj :- Configure(config, flags, loads, fs);
    var table := files(config[BlockConfigKey]);
    :- Need(blockConfigures(table), "the block-access process rejects its configuration");
    Ok((inj, table))
  }

  /** With the correction, the file named by the key decides the block-access
      process's table: two configurations that differ only there configure
      it with the two files' tables. */
  lemma BlockConfigHonoured(config: ConfigMap, flags: set<string>, loads: string -> bool, fs: string -> Node,
                            files: string -> ConfigMap, blockConfigures: ConfigMap -> bool, other: string)
    requires ConfigureIntended(config, flags, loads, fs, files, blockConfigures).Ok?
    requires blockConfigures(files(other))
    ensures ConfigureIntended(config[BlockConfigKey := other], flags, loads, fs, files, blockConfigures).Ok?
    ensures ConfigureIntended(config[BlockConfigKey := other], flags, loads, fs, files, blockConfigures).value.1 == files(other)
    ensures ConfigureIntended(config[BlockConfigKey := other], flags, loads, fs, files, blockConfigures).value.0
         == ConfigureIntended(config, flags, loads, fs, files, blockConfigures).value.0
  {
    BlockConfigIgnored(config, flags, loads, fs, other);
  }
}
