/**
 * The ordered-keys check of i18n-check: are the keys of each i18n JSON
 * object in alphabetical order, and, in fix mode, rewrite the files whose
 * keys are not.
 *
 * A JSON object is the sequence of its (key, value) entries in file order;
 * the directory of i18n files is a `FileStore` that maps each path to the
 * object the file holds, or to `None` when the file cannot be read.
 */
module OrderedKeys {
  import opened Wrappers
  import opened LexOrder
  import opened KeySort

  type Path = string
  type Entry = (string, string)
  type JsonObject = seq<Entry>

  function KeyOf(e: Entry): string { e.0 }

  /** `list(json_data.keys())`. */
  function Keys(obj: JsonObject): (keys: seq<string>)
    ensures |keys| == |obj|
    ensures forall i | 0 <= i < |obj| :: keys[i] == obj[i].0
  {
    Project(obj, KeyOf)
  }

  /** A JSON object decoded into a dict has each key once. */
  predicate DistinctKeys(obj: JsonObject)
  {
    DistinctBy(obj, KeyOf)
  }

  /** `json_data[k]`, with `None` for a missing key. */
  function Get(obj: JsonObject, k: string): (r: Option<string>)
    ensures r.Some? ==> (k, r.value) in obj
    ensures r.None? <==> k !in Keys(obj)
  {
    if obj == [] then None
    else if obj[0].0 == k then Some(obj[0].1)
    else
      assert Keys(obj) == [obj[0].0] + Keys(obj[1..]);
      Get(obj[1..], k)
  }

  lemma {:induction false} GetFindsEntry(obj: JsonObject, k: string, v: string)
    requires DistinctKeys(obj)
    ensures Get(obj, k) == Some(v) <==> (k, v) in obj
  {
    if obj != [] && obj[0].0 != k {
      GetFindsEntry(obj[1..], k, v);
    } else if obj != [] {
      forall i | 0 < i < |obj| ensures obj[i] != (k, v) {
        assert obj[0].0 != obj[i].0;
      }
    }
  }

  // MARK: check_keys_are_ordered

  /**
   * `check_keys_are_ordered`: the pair (keys == sorted keys, sorted keys).
   * The sorted keys are a permutation of the keys in ascending order, and
   * the flag holds exactly when the keys were already in that order.
   */
  function CheckKeysAreOrdered(obj: JsonObject): (r: (bool, seq<string>))
    ensures SortedBy(r.1, Id)
    ensures multiset(r.1) == multiset(Keys(obj))
    ensures r.0 <==> Keys(obj) == r.1
    ensures r.0 <==> SortedBy(Keys(obj), Id)
  {
    var keys := Keys(obj);
    var sortedKeys := SortBy(keys, Id);
    assert SortedBy(keys, Id) ==> sortedKeys == keys by {
      if SortedBy(keys, Id) {
        SortedIsFixpoint(keys, Id);
      }
    }
    (keys == sortedKeys, sortedKeys)
  }

  /** The sorted keys are the only sorted arrangement of the keys. */
  lemma SortedKeysAreUnique(obj: JsonObject, other: seq<string>)
    requires SortedBy(other, Id)
    requires multiset(other) == multiset(Keys(obj))
    ensures other == CheckKeysAreOrdered(obj).1
  {
    SortedPermutationUnique(other, CheckKeysAreOrdered(obj).1, Id);
  }

  /** An empty object and a one-key object are ordered. */
  lemma CheckSmallObjects(k: string, v: string)
    ensures CheckKeysAreOrdered([]) == (true, [])
    ensures CheckKeysAreOrdered([(k, v)]) == (true, [k])
  {
    assert Keys([(k, v)]) == [k];
  }

  // MARK: fix_ordered_keys

  /**
   * `dict(sorted(json_data.items()))`. Python compares the (key, value)
   * tuples; the keys of a dict are distinct, so the key alone decides.
   */
  function SortEntries(obj: JsonObject): (r: JsonObject)
    ensures SortedBy(Keys(r), Id)
    ensures multiset(r) == multiset(obj)
    ensures DistinctKeys(obj) ==> DistinctKeys(r)
  {
    var r := SortBy(obj, KeyOf);
    ProjectSorted(r, KeyOf);
    if DistinctKeys(obj) then
      SortDistinct(obj, KeyOf);
      r
    else r
  }

  /**
   * Fixing keeps every key-to-value pair: the fixed object has the same
   * entries, and looking up any key gives the same answer as before.
   */
  lemma FixPreservesContent(obj: JsonObject, k: string)
    requires DistinctKeys(obj)
    ensures |SortEntries(obj)| == |obj|
    ensures forall e :: e in SortEntries(obj) <==> e in obj
    ensures Get(SortEntries(obj), k) == Get(obj, k)
  {
    var r := SortEntries(obj);
    assert |r| == |multiset(r)| == |multiset(obj)| == |obj|;
    assert forall e :: e in r <==> e in multiset(r);
    match Get(obj, k)
    case Some(v) =>
      GetFindsEntry(r, k, v);
      assert (k, v) in multiset(r);
    case None =>
  }

  /** After fixing, the check reports the object ordered, with the same sorted keys. */
  lemma CheckAfterFix(obj: JsonObject)
    ensures CheckKeysAreOrdered(SortEntries(obj)) == (true, CheckKeysAreOrdered(obj).1)
  {
    SortCommutes(obj, KeyOf);
  }

  /** Fixing an ordered object leaves it as it is; so fixing twice is fixing once. */
  lemma FixIdempotent(obj: JsonObject)
    ensures CheckKeysAreOrdered(obj).0 ==> SortEntries(obj) == obj
    ensures SortEntries(SortEntries(obj)) == SortEntries(obj)
  {
    ProjectSorted(obj, KeyOf);
    if CheckKeysAreOrdered(obj).0 {
      SortedIsFixpoint(obj, KeyOf);
    }
    var r := SortBy(obj, KeyOf);
    SortedIsFixpoint(r, KeyOf);
  }

  // MARK: check_file_ordered_keys and check_ordered_keys

  /** Reading a path: a missing file cannot be read either. */
  function ReadFrom(files: map<Path, Option<JsonObject>>, p: Path): Option<JsonObject>
  {
    if p in files then files[p] else None
  }

  /** What `check_file_ordered_keys` reports as ordered: a readable file with sorted keys. */
  predicate FileOrdered(file: Option<JsonObject>)
  {
    file.Some? && SortedBy(Keys(file.value), Id)
  }

  /** `unordered_files` after the loop: the listed paths not ordered, in listing order. */
  function UnorderedFiles(files: map<Path, Option<JsonObject>>, paths: seq<Path>): (r: seq<Path>)
    ensures |r| <= |paths|
    ensures forall p :: p in r <==> p in paths && !FileOrdered(ReadFrom(files, p))
  {
    if paths == [] then []
    else
      var last := paths[|paths| - 1];
      assert paths == paths[..|paths| - 1] + [last];
      UnorderedFiles(files, paths[..|paths| - 1]) + (if FileOrdered(ReadFrom(files, last)) then [] else [last])
  }

  /** The store after fix mode rewrote those `targets` it could read and write. */
  function AfterFix(files: map<Path, Option<JsonObject>>, targets: seq<Path>, readOnly: set<Path>)
    : map<Path, Option<JsonObject>>
  {
    map p | p in files ::
      if p in targets && p !in readOnly && files[p].Some? then Some(SortEntries(files[p].value))
      else files[p]
  }

  lemma UnorderedFilesStep(files: map<Path, Option<JsonObject>>, paths: seq<Path>, i: nat)
    requires i < |paths|
    ensures UnorderedFiles(files, paths[..i + 1]) ==
      UnorderedFiles(files, paths[..i]) + (if FileOrdered(ReadFrom(files, paths[i])) then [] else [paths[i]])
  {
    assert paths[..i + 1][..i] == paths[..i];
  }

  /** Fixing one more target changes that file only, and only if it can be read and written. */
  lemma AfterFixStep(files: map<Path, Option<JsonObject>>, targets: seq<Path>, readOnly: set<Path>, p: Path)
    requires p !in targets
    ensures ReadFrom(AfterFix(files, targets, readOnly), p) == ReadFrom(files, p)
    ensures AfterFix(files, targets + [p], readOnly) ==
      if ReadFrom(files, p).Some? && p !in readOnly
      then AfterFix(files, targets, readOnly)[p := Some(SortEntries(ReadFrom(files, p).value))]
      else AfterFix(files, targets, readOnly)
  {
  }

  /** After fix mode, every listed file that could be read and written is ordered. */
  lemma FixedFilesAreOrdered(files: map<Path, Option<JsonObject>>, paths: seq<Path>, readOnly: set<Path>, p: Path)
    requires p in paths && ReadFrom(files, p).Some? && p !in readOnly
    ensures FileOrdered(ReadFrom(AfterFix(files, UnorderedFiles(files, paths), readOnly), p))
  {
    if !FileOrdered(ReadFrom(files, p)) {
      CheckAfterFix(ReadFrom(files, p).value);
    }
  }

  /**
   * A second run after fix mode reports exactly the unordered files that
   * could not be fixed: those that cannot be read and those that cannot be
   * written.
   */
  lemma RerunAfterFix(files: map<Path, Option<JsonObject>>, paths: seq<Path>, readOnly: set<Path>, p: Path)
    ensures var after := AfterFix(files, UnorderedFiles(files, paths), readOnly);
      p in UnorderedFiles(after, paths) <==>
        p in paths && !FileOrdered(ReadFrom(files, p)) && (ReadFrom(files, p).None? || p in readOnly)
  {
    if p in paths && ReadFrom(files, p).Some? && p !in readOnly {
      FixedFilesAreOrdered(files, paths, readOnly, p);
    }
  }

  /** How a run of `check_ordered_keys` ends; only `Unordered` exits with status 1. */
  datatype Outcome =
    | NoFiles             // no JSON file found
    | AllOrdered          // success: every file has its keys ordered
    | Fixed(count: nat)   // fix mode: this many files were unordered and a fix was attempted
    | Unordered(count: nat)  // this many files have unordered keys: `sys.exit(1)`
  {
    predicate Failed() { Unordered? }
  }

  /** The i18n directory: its JSON files and the paths that cannot be written. */
  class FileStore {
    var files: map<Path, Option<JsonObject>>
    const readOnly: set<Path>

    /** Every readable file decodes to a dict, with distinct keys. */
    ghost predicate Valid()
      reads this
    {
      forall p | p in files && files[p].Some? :: DistinctKeys(files[p].value)
    }

    constructor (files: map<Path, Option<JsonObject>>, readOnly: set<Path>)
      requires forall p | p in files && files[p].Some? :: DistinctKeys(files[p].value)
      ensures Valid()
      ensures this.files == files && this.readOnly == readOnly
    {
      this.files := files;
      this.readOnly := readOnly;
    }

    function Read(p: Path): Option<JsonObject>
      reads this
    {
      ReadFrom(files, p)
    }

    /**
     * `check_file_ordered_keys`: the check of the file's object, or
     * (False, []) when the file cannot be read.
     */
    method CheckFile(p: Path) returns (isOrdered: bool, sortedKeys: seq<string>)
      ensures isOrdered == FileOrdered(Read(p))
      ensures Read(p).None? ==> sortedKeys == []
      ensures Read(p).Some? ==>
        SortedBy(sortedKeys, Id) && multiset(sortedKeys) == multiset(Keys(Read(p).value))
    {
      match Read(p)
      case None =>
        isOrdered, sortedKeys := false, [];
      case Some(obj) =>
        var checked := CheckKeysAreOrdered(obj);
        isOrdered, sortedKeys := checked.0, checked.1;
    }

    /**
     * `fix_ordered_keys`: rewrite the file with its entries sorted by key;
     * False, with nothing changed, when it cannot be read or written.
     */
    method FixFile(p: Path) returns (ok: bool)
      requires Valid()
      modifies this`files
      ensures Valid()
      ensures ok <==> old(Read(p)).Some? && p !in readOnly
      ensures files == if ok then old(files)[p := Some(SortEntries(old(Read(p)).value))] else old(files)
    {
      match Read(p)
      case None =>
        ok := false;
      case Some(obj) =>
        if p in readOnly {
          ok := false;
        } else {
          files := files[p := Some(SortEntries(obj))];
          ok := true;
        }
    }

    /**
     * The loop of `check_ordered_keys`: checks each listed file in turn,
     * collecting the unordered ones and, in fix mode, rewriting each of them
     * as soon as it is found.
     */
    method ScanFiles(paths: seq<Path>, fix: bool) returns (unordered: seq<Path>)
      requires Valid()
      requires forall i, j | 0 <= i < j < |paths| :: paths[i] != paths[j]
      modifies this`files
      ensures Valid()
      ensures unordered == UnorderedFiles(old(files), paths)
      ensures files == if fix then AfterFix(old(files), unordered, readOnly) else old(files)
    {
      unordered := [];
      var i := 0;
      while i < |paths|
        invariant 0 <= i <= |paths|
        invariant Valid()
        invariant unordered == UnorderedFiles(old(files), paths[..i])
        invariant files == if fix then AfterFix(old(files), unordered, readOnly) else old(files)
      {
        var p := paths[i];
        assert p !in paths[..i] by {
          forall j | 0 <= j < i ensures paths[..i][j] != p {
            assert paths[..i][j] == paths[j];
          }
        }
        AfterFixStep(old(files), unordered, readOnly, p);
        UnorderedFilesStep(old(files), paths, i);
        var isOrdered, sortedKeys := CheckFile(p);
        if !isOrdered {
          unordered := unordered + [p];
          if fix {
            var fixed := FixFile(p);
          }
        }
        i := i + 1;
      }
      assert paths[..|paths|] == paths;
    }

    /**
     * `check_ordered_keys` over the JSON files `paths` found in the i18n
     * directory: collects the unordered files, rewrites them in fix mode,
     * and otherwise fails exactly when some file is unordered.
     */
    method CheckOrderedKeys(paths: seq<Path>, fix: bool) returns (outcome: Outcome, unordered: seq<Path>)
      requires Valid()
      requires forall i, j | 0 <= i < j < |paths| :: paths[i] != paths[j]
      modifies this`files
      ensures Valid()
      ensures unordered == UnorderedFiles(old(files), paths)
      ensures paths == [] ==> outcome == NoFiles
      ensures paths != [] && unordered == [] ==> outcome == AllOrdered
      ensures unordered != [] ==> outcome == if fix then Fixed(|unordered|) else Unordered(|unordered|)
      ensures outcome.Failed() <==> !fix && exists p :: p in paths && !FileOrdered(ReadFrom(old(files), p))
      ensures !fix ==> files == old(files)
      ensures fix ==> files == AfterFix(old(files), unordered, readOnly)
      ensures fix ==> forall p | p in paths && ReadFrom(old(files), p).Some? && p !in readOnly :: FileOrdered(Read(p))
    {
      if paths == [] {
        assert forall p :: p !in paths;
        return NoFiles, [];
      }
      unordered := ScanFiles(paths, fix);
      if unordered == [] {
        assert forall p | p in paths :: p !in unordered;
        outcome := AllOrdered;
      } else {
        assert unordered[0] in unordered;
        outcome := if fix then Fixed(|unordered|) else Unordered(|unordered|);
      }
      if fix {
        forall p | p in paths && ReadFrom(old(files), p).Some? && p !in readOnly
          ensures FileOrdered(Read(p))
        {
          FixedFilesAreOrdered(old(files), paths, readOnly, p);
        }
      }
    }
  }
}
