/**
 * implode.py: bundling the fragment files back into one instruction file.
 *
 * A fragment file is a file name and its text. The directory listing, the
 * reading of each file and the writing of the bundle are left to the caller:
 * the bundling operations here take the listed files and return the text the
 * script writes. The contents of `SECTION_GLOBS` and the two name mappings
 * come from a module that is not part of this model, so the keys are a
 * parameter and `header_to_filename` / `filename_to_header` are functions
 * passed in.
 */
module Implode {
  import opened Text

  datatype Option<T> = None | Some(value: T)

  /** A listed fragment: the file's name (its last path component) and its text. */
  datatype FragmentFile = FragmentFile(name: string, content: string)

  /** pathlib's `Path(name).stem`: the name without its last suffix. */
  function Stem(name: string): string {
    var i := LastIndexOf(name, '.');
    if 0 < i < |name| - 1 then name[..i] else name
  }

  /**
   * The stem is a prefix of the name. It is shorter exactly when a dot that
   * is neither the first nor the last character exists, and then it ends
   * right before the last dot.
   */
  lemma StemShape(name: string)
    ensures Stem(name) <= name
    ensures Stem(name) != name ==>
      0 < |Stem(name)| < |name| - 1 && name[|Stem(name)|] == '.' && '.' !in name[|Stem(name)| + 1..]
    ensures Stem(name) == name <==> |name| < 2 || name[|name| - 1] == '.' || '.' !in name[1..|name| - 1]
  {
    var i := LastIndexOf(name, '.');
    if |name| >= 2 && name[|name| - 1] != '.' && '.' in name[1..|name| - 1] {
      var k :| 1 <= k < |name| - 1 && name[k] == '.';
      assert name[1..|name| - 1][k - 1] == '.';
    }
  }

  /** The stem of `base.ext` is `base` when `ext` holds no further dot. */
  lemma StemOfSuffixed(base: string, ext: string)
    requires base != [] && ext != [] && '.' !in ext
    ensures Stem(base + "." + ext) == base
  {
    var name := base + "." + ext;
    assert name[|base|] == '.';
    forall k | |base| < k < |name| ensures name[k] != '.' {
      assert name[k] == ext[k - |base| - 1];
    }
    LastIndexOfUnique(name, '.', |base|);
    assert name[..|base|] == base;
  }

  // ---------------------------------------------------------------------
  // `file_dict`: a Python dict keyed by the stem of each file name, kept as
  // its values in insertion order. The stem is taken with `stemOf`, which
  // get_ordered_files instantiates with `Stem`.
  // ---------------------------------------------------------------------

  /** Where the entry for `stem` is (`stem in file_dict`), or `|entries|`. */
  function Find(entries: seq<FragmentFile>, stemOf: string -> string, stem: string): (j: nat)
    ensures j <= |entries|
    ensures forall k :: 0 <= k < j ==> stemOf(entries[k].name) != stem
    ensures j < |entries| ==> stemOf(entries[j].name) == stem
  {
    if entries == [] then 0
    else if stemOf(entries[0].name) == stem then 0
    else 1 + Find(entries[1..], stemOf, stem)
  }

  /** No two entries share a stem: what a dict keyed by stem holds. */
  predicate UniqueStems(entries: seq<FragmentFile>, stemOf: string -> string) {
    forall i, j :: 0 <= i < j < |entries| ==> stemOf(entries[i].name) != stemOf(entries[j].name)
  }

  /** `file_dict[f.stem] = f`: a present key keeps its place, a new key goes last. */
  function Put(entries: seq<FragmentFile>, stemOf: string -> string, f: FragmentFile): seq<FragmentFile> {
    var j := Find(entries, stemOf, stemOf(f.name));
    if j < |entries| then entries[j := f] else entries + [f]
  }

  /** `del file_dict[...]` at position `j`. */
  function Remove(entries: seq<FragmentFile>, j: nat): seq<FragmentFile>
    requires j < |entries|
  {
    entries[..j] + entries[j + 1..]
  }

  /** `{f.stem: f for f in file_list}`. */
  function FileDict(files: seq<FragmentFile>, stemOf: string -> string): seq<FragmentFile> {
    if files == [] then [] else Put(FileDict(files[..|files| - 1], stemOf), stemOf, files[|files| - 1])
  }

  /** `x` is a listed file and no later file in the list has the same stem. */
  predicate LastOfItsStem(files: seq<FragmentFile>, stemOf: string -> string, x: FragmentFile) {
    exists p :: 0 <= p < |files| && files[p] == x
      && (forall q :: p < q < |files| ==> stemOf(files[q].name) != stemOf(x.name))
  }

  lemma PutUnique(entries: seq<FragmentFile>, stemOf: string -> string, f: FragmentFile)
    requires UniqueStems(entries, stemOf)
    ensures UniqueStems(Put(entries, stemOf, f), stemOf)
  {
    var j := Find(entries, stemOf, stemOf(f.name));
    var r := Put(entries, stemOf, f);
    forall a, b | 0 <= a < b < |r| ensures stemOf(r[a].name) != stemOf(r[b].name) {
      if j < |entries| {
        assert stemOf(r[j].name) == stemOf(entries[j].name);
        assert a != j ==> r[a] == entries[a];
        assert b != j ==> r[b] == entries[b];
      } else if b < |entries| {
        assert r[a] == entries[a] && r[b] == entries[b];
      } else {
        assert r[a] == entries[a] && r[b] == f;
      }
    }
  }

  lemma PutMembers(entries: seq<FragmentFile>, stemOf: string -> string, f: FragmentFile)
    requires UniqueStems(entries, stemOf)
    ensures forall x :: x in Put(entries, stemOf, f) <==>
      x == f || (x in entries && stemOf(x.name) != stemOf(f.name))
  {
    var j := Find(entries, stemOf, stemOf(f.name));
    var r := Put(entries, stemOf, f);
    forall x ensures x in r <==> x == f || (x in entries && stemOf(x.name) != stemOf(f.name)) {
      if j < |entries| {
        assert r[j] == f;
        if x in entries && stemOf(x.name) != stemOf(f.name) {
          var k :| 0 <= k < |entries| && entries[k] == x;
          assert r[k] == x;
        }
        if x in r && x != f {
          var k :| 0 <= k < |r| && r[k] == x;
          assert k != j && entries[k] == x;
        }
      } else {
        assert r == entries + [f];
        if x in entries {
          var k :| 0 <= k < |entries| && entries[k] == x;
        }
      }
    }
  }

  /** The dict has one entry per stem. */
  lemma {:induction false} FileDictUnique(files: seq<FragmentFile>, stemOf: string -> string)
    ensures UniqueStems(FileDict(files, stemOf), stemOf)
  {
    if files != [] {
      FileDictUnique(files[..|files| - 1], stemOf);
      PutUnique(FileDict(files[..|files| - 1], stemOf), stemOf, files[|files| - 1]);
    }
  }

  /** Listing one more file `f`: it is the last of its stem, and it ends that for the others of its stem. */
  lemma LastOfItsStemSnoc(init: seq<FragmentFile>, stemOf: string -> string, f: FragmentFile, x: FragmentFile)
    ensures LastOfItsStem(init + [f], stemOf, x) <==>
      x == f || (LastOfItsStem(init, stemOf, x) && stemOf(x.name) != stemOf(f.name))
  {
    var files := init + [f];
    if x == f {
      assert files[|init|] == x;
    }
    if LastOfItsStem(init, stemOf, x) && stemOf(x.name) != stemOf(f.name) {
      var p :| 0 <= p < |init| && init[p] == x
        && (forall q :: p < q < |init| ==> stemOf(init[q].name) != stemOf(x.name));
      assert files[p] == x;
    }
    if LastOfItsStem(files, stemOf, x) && x != f {
      var p :| 0 <= p < |files| && files[p] == x
        && (forall q :: p < q < |files| ==> stemOf(files[q].name) != stemOf(x.name));
      assert files[|init|] == f;
      assert p < |init| && init[p] == x;
      assert forall q :: p < q < |init| ==> init[q] == files[q];
      assert stemOf(x.name) != stemOf(f.name);
      assert LastOfItsStem(init, stemOf, x);
    }
  }

  /** The dict holds exactly the last listed file of each stem. */
  lemma {:induction false} FileDictMembers(files: seq<FragmentFile>, stemOf: string -> string)
    ensures forall x :: x in FileDict(files, stemOf) <==> LastOfItsStem(files, stemOf, x)
  {
    if files == [] {
      assert forall x :: !LastOfItsStem(files, stemOf, x);
    } else {
      var init, f := files[..|files| - 1], files[|files| - 1];
      assert files == init + [f];
      FileDictMembers(init, stemOf);
      FileDictUnique(init, stemOf);
      PutMembers(FileDict(init, stemOf), stemOf, f);
      forall x ensures x in FileDict(files, stemOf) <==> LastOfItsStem(files, stemOf, x) {
        LastOfItsStemSnoc(init, stemOf, f, x);
      }
    }
  }

  /** When no two listed files share a stem, the dict holds all of them, in listing order. */
  lemma {:induction false} FileDictOfUniqueStems(files: seq<FragmentFile>, stemOf: string -> string)
    requires UniqueStems(files, stemOf)
    ensures FileDict(files, stemOf) == files
  {
    if files != [] {
      var init := files[..|files| - 1];
      FileDictOfUniqueStems(init, stemOf);
      assert Find(init, stemOf, stemOf(files[|files| - 1].name)) == |init|;
      assert init + [files[|files| - 1]] == files;
    }
  }

  // ---------------------------------------------------------------------
  // Multisets of entries
  // ---------------------------------------------------------------------

  lemma RemoveMultiset(entries: seq<FragmentFile>, j: nat)
    requires j < |entries|
    ensures multiset(Remove(entries, j)) + multiset{entries[j]} == multiset(entries)
  {
    assert entries == entries[..j] + [entries[j]] + entries[j + 1..];
  }

  /** Two positions holding the same entry count it twice. */
  lemma CountTwice(s: seq<FragmentFile>, i: nat, j: nat)
    requires i < j < |s| && s[i] == s[j]
    ensures multiset(s)[s[i]] >= 2
  {
    assert s == s[..j] + [s[j]] + s[j + 1..];
    assert s[i] in s[..j];
  }

  /** An entry counted twice sits at two positions. */
  lemma TwiceAtTwoPlaces(s: seq<FragmentFile>, x: FragmentFile)
    requires multiset(s)[x] >= 2
    ensures exists i, j :: 0 <= i < j < |s| && s[i] == x && s[j] == x
  {
    var i :| 0 <= i < |s| && s[i] == x;
    assert s == s[..i] + [s[i]] + s[i + 1..];
    var rest := s[..i] + s[i + 1..];
    assert multiset(rest)[x] >= 1;
    assert x in rest;
    var k :| 0 <= k < |rest| && rest[k] == x;
    if k < i {
      assert s[k] == x;
    } else {
      assert s[k + 1] == x;
    }
  }

  /** Any part of a dict, in any order, still has one entry per stem. */
  lemma UniqueStemsOfPart(whole: seq<FragmentFile>, part: seq<FragmentFile>, stemOf: string -> string)
    requires UniqueStems(whole, stemOf) && multiset(part) <= multiset(whole)
    ensures UniqueStems(part, stemOf)
  {
    forall i, j | 0 <= i < j < |part| ensures stemOf(part[i].name) != stemOf(part[j].name) {
      if part[i] == part[j] {
        CountTwice(part, i, j);
        TwiceAtTwoPlaces(whole, part[i]);
      } else {
        assert part[i] in multiset(whole) && part[j] in multiset(whole);
        var p :| 0 <= p < |whole| && whole[p] == part[i];
        var q :| 0 <= q < |whole| && whole[q] == part[j];
        assert p != q;
      }
    }
  }

  // ---------------------------------------------------------------------
  // The key pass of get_ordered_files
  // ---------------------------------------------------------------------

  /** Position of the first key whose file name is `stem`, or `|keys|` when no key maps to it. */
  function FirstKey(keys: seq<string>, toFilename: string -> string, stem: string): (k: nat)
    ensures k <= |keys|
    ensures forall i :: 0 <= i < k ==> toFilename(keys[i]) != stem
    ensures k < |keys| ==> toFilename(keys[k]) == stem
  {
    if keys == [] then 0
    else if toFilename(keys[0]) == stem then 0
    else 1 + FirstKey(keys[1..], toFilename, stem)
  }

  /**
   * The key loop from position `s` on, with the files `taken` so far: each
   * key moves its file, if the dict has one, out of the dict to the end of
   * `taken`; the result is all files taken and what is left of the dict.
   */
  function KeyPass(entries: seq<FragmentFile>, stemOf: string -> string, keys: seq<string>,
                   toFilename: string -> string, s: nat, taken: seq<FragmentFile>)
    : (seq<FragmentFile>, seq<FragmentFile>)
    requires s <= |keys|
    decreases |keys| - s
  {
    if s == |keys| then (taken, entries)
    else
      var j := Find(entries, stemOf, toFilename(keys[s]));
      if j < |entries| then KeyPass(Remove(entries, j), stemOf, keys, toFilename, s + 1, taken + [entries[j]])
      else KeyPass(entries, stemOf, keys, toFilename, s + 1, taken)
  }

  /** No entry of the dict is stored under `stem`. */
  predicate NoEntry(entries: seq<FragmentFile>, stemOf: string -> string, stem: string) {
    forall x :: x in entries ==> stemOf(x.name) != stem
  }

  /** Removing the entry at `j` leaves no entry with its stem. */
  lemma RemoveLeavesNoEntry(entries: seq<FragmentFile>, stemOf: string -> string, j: nat)
    requires j < |entries| && UniqueStems(entries, stemOf)
    ensures NoEntry(Remove(entries, j), stemOf, stemOf(entries[j].name))
  {
    var rest := Remove(entries, j);
    forall x | x in rest ensures stemOf(x.name) != stemOf(entries[j].name) {
      var i :| 0 <= i < |rest| && rest[i] == x;
      if i < j { assert x == entries[i]; } else { assert x == entries[i + 1]; }
    }
  }

  /** Removing an entry adds no stem. */
  lemma RemoveKeepsNoEntry(entries: seq<FragmentFile>, stemOf: string -> string, j: nat, stem: string)
    requires j < |entries| && NoEntry(entries, stemOf, stem)
    ensures NoEntry(Remove(entries, j), stemOf, stem)
  {
    forall x | x in Remove(entries, j) ensures stemOf(x.name) != stem {
      assert x in entries[..j] || x in entries[j + 1..];
    }
  }

  /** Taking the entry for the key at `s` out of a dict with no entry for earlier keys. */
  lemma TakeStep(entries: seq<FragmentFile>, stemOf: string -> string, keys: seq<string>,
                 toFilename: string -> string, s: nat, j: nat)
    requires s < |keys| && UniqueStems(entries, stemOf)
    requires forall k :: 0 <= k < s ==> NoEntry(entries, stemOf, toFilename(keys[k]))
    requires j == Find(entries, stemOf, toFilename(keys[s])) && j < |entries|
    ensures UniqueStems(Remove(entries, j), stemOf)
    ensures multiset(Remove(entries, j)) + multiset{entries[j]} == multiset(entries)
    ensures forall k :: 0 <= k <= s ==> NoEntry(Remove(entries, j), stemOf, toFilename(keys[k]))
    ensures FirstKey(keys, toFilename, stemOf(entries[j].name)) == s
  {
    var rest := Remove(entries, j);
    RemoveMultiset(entries, j);
    UniqueStemsOfPart(entries, rest, stemOf);
    RemoveLeavesNoEntry(entries, stemOf, j);
    forall k | 0 <= k < s ensures NoEntry(rest, stemOf, toFilename(keys[k])) {
      RemoveKeepsNoEntry(entries, stemOf, j, toFilename(keys[k]));
    }
    assert entries[j] in entries;
    TakenKey(keys, toFilename, stemOf(entries[j].name), s);
  }

  /** A stem that the key at `s` maps to and no earlier key does has `s` as its first key. */
  lemma TakenKey(keys: seq<string>, toFilename: string -> string, stem: string, s: nat)
    requires s < |keys| && toFilename(keys[s]) == stem
    requires forall i :: 0 <= i < s ==> toFilename(keys[i]) != stem
    ensures FirstKey(keys, toFilename, stem) == s
  {
  }

  /** Once the keys are used up, what is left holds no mapped file. */
  lemma TakeDone(entries: seq<FragmentFile>, stemOf: string -> string, keys: seq<string>,
                 toFilename: string -> string)
    requires forall k :: 0 <= k < |keys| ==> NoEntry(entries, stemOf, toFilename(keys[k]))
    ensures forall x :: x in entries ==> FirstKey(keys, toFilename, stemOf(x.name)) == |keys|
  {
    forall x | x in entries ensures FirstKey(keys, toFilename, stemOf(x.name)) == |keys| {
      var k := FirstKey(keys, toFilename, stemOf(x.name));
      assert k < |keys| ==> !NoEntry(entries, stemOf, toFilename(keys[k]));
    }
  }

  /** Every file of `m` is mapped to a key before `s`, and `m` follows key order. */
  predicate InKeyOrder(m: seq<FragmentFile>, stemOf: string -> string, keys: seq<string>,
                       toFilename: string -> string, s: nat) {
    && (forall i :: 0 <= i < |m| ==> FirstKey(keys, toFilename, stemOf(m[i].name)) < s)
    && (forall i, j :: 0 <= i < j < |m| ==>
          FirstKey(keys, toFilename, stemOf(m[i].name)) < FirstKey(keys, toFilename, stemOf(m[j].name)))
  }

  /** No file of `rest` is mapped to any key. */
  predicate Unmapped(rest: seq<FragmentFile>, stemOf: string -> string, keys: seq<string>,
                     toFilename: string -> string) {
    forall x :: x in rest ==> FirstKey(keys, toFilename, stemOf(x.name)) == |keys|
  }

  lemma InKeyOrderSnoc(m: seq<FragmentFile>, x: FragmentFile, stemOf: string -> string, keys: seq<string>,
                       toFilename: string -> string, s: nat)
    requires FirstKey(keys, toFilename, stemOf(x.name)) == s
    requires InKeyOrder(m, stemOf, keys, toFilename, s)
    ensures InKeyOrder(m + [x], stemOf, keys, toFilename, s + 1)
  {
    var mx := m + [x];
    assert forall i :: 0 <= i < |m| ==> mx[i] == m[i];
  }

  /**
   * `r` is the files `taken` and `entries` regrouped: the first part in key
   * order, each mapped to a key, the second part holding no mapped file.
   */
  predicate SplitByKeys(taken: seq<FragmentFile>, entries: seq<FragmentFile>,
                        r: (seq<FragmentFile>, seq<FragmentFile>),
                        stemOf: string -> string, keys: seq<string>, toFilename: string -> string) {
    && multiset(r.0) + multiset(r.1) == multiset(taken) + multiset(entries)
    && InKeyOrder(r.0, stemOf, keys, toFilename, |keys|)
    && Unmapped(r.1, stemOf, keys, toFilename)
  }

  lemma InKeyOrderWiden(m: seq<FragmentFile>, stemOf: string -> string, keys: seq<string>,
                        toFilename: string -> string, s: nat)
    requires InKeyOrder(m, stemOf, keys, toFilename, s)
    ensures InKeyOrder(m, stemOf, keys, toFilename, s + 1)
  {
  }

  /** Moving one entry from the dict to the files taken regroups the same files. */
  lemma SplitByKeysShift(taken: seq<FragmentFile>, entries: seq<FragmentFile>, j: nat,
                         r: (seq<FragmentFile>, seq<FragmentFile>),
                         stemOf: string -> string, keys: seq<string>, toFilename: string -> string)
    requires j < |entries|
    requires SplitByKeys(taken + [entries[j]], Remove(entries, j), r, stemOf, keys, toFilename)
    ensures SplitByKeys(taken, entries, r, stemOf, keys, toFilename)
  {
    RemoveMultiset(entries, j);
  }

  /**
   * The state the key loop is in before the key at `s`: the dict has one
   * entry per stem and none for an earlier key, and the files taken follow
   * key order.
   */
  predicate KeyPassState(entries: seq<FragmentFile>, stemOf: string -> string, keys: seq<string>,
                         toFilename: string -> string, s: nat, taken: seq<FragmentFile>) {
    && s <= |keys| && UniqueStems(entries, stemOf)
    && (forall k :: 0 <= k < s ==> NoEntry(entries, stemOf, toFilename(keys[k])))
    && InKeyOrder(taken, stemOf, keys, toFilename, s)
  }

  /** One turn of the key loop keeps its state. */
  lemma KeyPassStep(entries: seq<FragmentFile>, stemOf: string -> string, keys: seq<string>,
                    toFilename: string -> string, s: nat, taken: seq<FragmentFile>)
    requires KeyPassState(entries, stemOf, keys, toFilename, s, taken) && s < |keys|
    ensures var j := Find(entries, stemOf, toFilename(keys[s]));
      if j < |entries| then KeyPassState(Remove(entries, j), stemOf, keys, toFilename, s + 1, taken + [entries[j]])
      else KeyPassState(entries, stemOf, keys, toFilename, s + 1, taken)
  {
    var j := Find(entries, stemOf, toFilename(keys[s]));
    if j < |entries| {
      TakeStep(entries, stemOf, keys, toFilename, s, j);
      InKeyOrderSnoc(taken, entries[j], stemOf, keys, toFilename, s);
    } else {
      InKeyOrderWiden(taken, stemOf, keys, toFilename, s);
    }
  }

  /**
   * The key pass takes each mapped file once, in the order of its first
   * key; what it leaves is only unmapped files, and nothing is lost.
   */
  lemma {:induction false} KeyPassProperties(entries: seq<FragmentFile>, stemOf: string -> string,
                                             keys: seq<string>, toFilename: string -> string, s: nat,
                                             taken: seq<FragmentFile>)
    requires KeyPassState(entries, stemOf, keys, toFilename, s, taken)
    ensures SplitByKeys(taken, entries, KeyPass(entries, stemOf, keys, toFilename, s, taken),
                        stemOf, keys, toFilename)
    decreases |keys| - s
  {
    if s == |keys| {
      TakeDone(entries, stemOf, keys, toFilename);
    } else {
      KeyPassStep(entries, stemOf, keys, toFilename, s, taken);
      var j := Find(entries, stemOf, toFilename(keys[s]));
      if j < |entries| {
        KeyPassProperties(Remove(entries, j), stemOf, keys, toFilename, s + 1, taken + [entries[j]]);
        SplitByKeysShift(taken, entries, j, KeyPass(entries, stemOf, keys, toFilename, s, taken),
                         stemOf, keys, toFilename);
      } else {
        KeyPassProperties(entries, stemOf, keys, toFilename, s + 1, taken);
      }
    }
  }

  // ---------------------------------------------------------------------
  // `sorted(..., key=lambda p: p.name)`
  // ---------------------------------------------------------------------

  predicate SortedByName(s: seq<FragmentFile>) {
    forall i, j :: 0 <= i < j < |s| ==> !LexLess(s[j].name, s[i].name)
  }

  /** Puts `f` after every entry whose name is not greater, so equal names keep their order. */
  function InsertByName(f: FragmentFile, s: seq<FragmentFile>): (r: seq<FragmentFile>)
    ensures multiset(r) == multiset(s) + multiset{f}
  {
    if s == [] then [f]
    else if LexLess(f.name, s[0].name) then [f] + s
    else
      assert s == [s[0]] + s[1..];
      [s[0]] + InsertByName(f, s[1..])
  }

  /** Nothing in sorted `s` has a smaller name than `y` when its first entry does not. */
  lemma SortedFloor(s: seq<FragmentFile>, y: FragmentFile)
    requires SortedByName(s) && s != [] && !LexLess(s[0].name, y.name)
    ensures forall k :: 0 <= k < |s| ==> !LexLess(s[k].name, y.name)
  {
    forall k | 0 < k < |s| ensures !LexLess(s[k].name, y.name) {
      if LexLess(s[k].name, y.name) {
        LexLessTotal(s[0].name, y.name);
        if s[0].name != y.name {
          LexLessTransitive(s[k].name, y.name, s[0].name);
        }
      }
    }
  }

  lemma {:induction false} InsertByNameSorted(f: FragmentFile, s: seq<FragmentFile>)
    requires SortedByName(s)
    ensures SortedByName(InsertByName(f, s))
  {
    if s != [] {
      if LexLess(f.name, s[0].name) {
        LexLessIrreflexive(f.name);
        assert !LexLess(s[0].name, f.name) by {
          if LexLess(s[0].name, f.name) { LexLessTransitive(f.name, s[0].name, f.name); }
        }
        SortedFloor(s, f);
        SortedCons(f, s);
      } else {
        var rest := InsertByName(f, s[1..]);
        InsertByNameSorted(f, s[1..]);
        forall k | 0 <= k < |rest| ensures !LexLess(rest[k].name, s[0].name) {
          assert rest[k] in multiset(rest);
          if rest[k] != f {
            var p :| 0 <= p < |s| - 1 && s[1..][p] == rest[k];
            assert s[p + 1] == rest[k];
          }
        }
        SortedCons(s[0], rest);
      }
    }
  }

  /** An entry put before a sorted list whose names are none smaller keeps it sorted. */
  lemma SortedCons(y: FragmentFile, s: seq<FragmentFile>)
    requires SortedByName(s)
    requires forall k :: 0 <= k < |s| ==> !LexLess(s[k].name, y.name)
    ensures SortedByName([y] + s)
  {
    var r := [y] + s;
    forall i, j | 0 <= i < j < |r| ensures !LexLess(r[j].name, r[i].name) {
      assert r[j] == s[j - 1];
      if i > 0 { assert r[i] == s[i - 1]; }
    }
  }

  /** A stable sort by name: each entry is inserted after those already placed. */
  function SortByName(s: seq<FragmentFile>): (r: seq<FragmentFile>)
    ensures multiset(r) == multiset(s)
  {
    if s == [] then []
    else
      assert s == s[..|s| - 1] + [s[|s| - 1]];
      InsertByName(s[|s| - 1], SortByName(s[..|s| - 1]))
  }

  lemma {:induction false} SortByNameSorted(s: seq<FragmentFile>)
    ensures SortedByName(SortByName(s))
  {
    if s != [] {
      SortByNameSorted(s[..|s| - 1]);
      InsertByNameSorted(s[|s| - 1], SortByName(s[..|s| - 1]));
    }
  }

  // ---------------------------------------------------------------------
  // get_ordered_files
  // ---------------------------------------------------------------------

  /** The order get_ordered_files returns: mapped files by key, then the rest by name. */
  function OrderedBy(files: seq<FragmentFile>, stemOf: string -> string, keys: seq<string>,
                     toFilename: string -> string): seq<FragmentFile>
  {
    var r := KeyPass(FileDict(files, stemOf), stemOf, keys, toFilename, 0, []);
    r.0 + SortByName(r.1)
  }

  /** get_ordered_files, with pathlib's stems. */
  function OrderedFiles(files: seq<FragmentFile>, keys: seq<string>, toFilename: string -> string)
    : seq<FragmentFile>
  {
    OrderedBy(files, Stem, keys, toFilename)
  }

  /**
   * `a` may come before `b` in the bundle: when `b` is mapped, `a` is mapped
   * to an earlier key; when `b` is unmapped, `a` is mapped or has the smaller
   * file name.
   */
  predicate InBundleOrder(a: FragmentFile, b: FragmentFile, stemOf: string -> string,
                          keys: seq<string>, toFilename: string -> string) {
    var ka := FirstKey(keys, toFilename, stemOf(a.name));
    var kb := FirstKey(keys, toFilename, stemOf(b.name));
    if kb < |keys| then ka < kb else ka < |keys| || LexLess(a.name, b.name)
  }

  /**
   * The ordered list holds the last listed file of every stem, each once,
   * and nothing else.
   */
  lemma OrderedByMembers(files: seq<FragmentFile>, stemOf: string -> string, keys: seq<string>,
                         toFilename: string -> string)
    ensures var r := OrderedBy(files, stemOf, keys, toFilename);
      && multiset(r) == multiset(FileDict(files, stemOf))
      && UniqueStems(r, stemOf)
      && (forall x :: x in r <==> LastOfItsStem(files, stemOf, x))
  {
    var d := FileDict(files, stemOf);
    FileDictUnique(files, stemOf);
    FileDictMembers(files, stemOf);
    KeyPassProperties(d, stemOf, keys, toFilename, 0, []);
    var r := OrderedBy(files, stemOf, keys, toFilename);
    assert multiset(r) == multiset(d);
    UniqueStemsOfPart(d, r, stemOf);
    forall x ensures x in r <==> x in d {
      assert x in r <==> x in multiset(r);
      assert x in d <==> x in multiset(d);
    }
  }

  /** Without repeated stems, ordering the files is a permutation of them. */
  lemma OrderedByPermutation(files: seq<FragmentFile>, stemOf: string -> string, keys: seq<string>,
                             toFilename: string -> string)
    requires UniqueStems(files, stemOf)
    ensures multiset(OrderedBy(files, stemOf, keys, toFilename)) == multiset(files)
  {
    FileDictOfUniqueStems(files, stemOf);
    OrderedByMembers(files, stemOf, keys, toFilename);
  }

  lemma UnmappedPermuted(a: seq<FragmentFile>, b: seq<FragmentFile>, stemOf: string -> string,
                         keys: seq<string>, toFilename: string -> string)
    requires Unmapped(a, stemOf, keys, toFilename) && multiset(b) == multiset(a)
    ensures Unmapped(b, stemOf, keys, toFilename)
  {
    forall x | x in b ensures FirstKey(keys, toFilename, stemOf(x.name)) == |keys| {
      assert x in multiset(a);
    }
  }

  /** Files in key order followed by unmapped files sorted by name, with no stem twice. */
  lemma ConcatInBundleOrder(m: seq<FragmentFile>, sorted: seq<FragmentFile>, stemOf: string -> string,
                            keys: seq<string>, toFilename: string -> string)
    requires InKeyOrder(m, stemOf, keys, toFilename, |keys|)
    requires Unmapped(sorted, stemOf, keys, toFilename) && SortedByName(sorted) && UniqueStems(sorted, stemOf)
    ensures var r := m + sorted;
      forall i, j :: 0 <= i < j < |r| ==> InBundleOrder(r[i], r[j], stemOf, keys, toFilename)
  {
    var r := m + sorted;
    forall i, j | 0 <= i < j < |r| ensures InBundleOrder(r[i], r[j], stemOf, keys, toFilename) {
      if j >= |m| {
        assert r[j] == sorted[j - |m|];
        if i >= |m| {
          assert r[i] == sorted[i - |m|];
          LexLessTotal(r[i].name, r[j].name);
        }
      }
    }
  }

  /**
   * Every two files of the ordered list stand in bundle order: the mapped
   * files first, by the position of their first key, then the rest by name.
   */
  lemma OrderedByOrder(files: seq<FragmentFile>, stemOf: string -> string, keys: seq<string>,
                       toFilename: string -> string)
    ensures var r := OrderedBy(files, stemOf, keys, toFilename);
      forall i, j :: 0 <= i < j < |r| ==> InBundleOrder(r[i], r[j], stemOf, keys, toFilename)
  {
    var d := FileDict(files, stemOf);
    FileDictUnique(files, stemOf);
    KeyPassProperties(d, stemOf, keys, toFilename, 0, []);
    var t := KeyPass(d, stemOf, keys, toFilename, 0, []);
    assert SplitByKeys([], d, t, stemOf, keys, toFilename);
    var sorted := SortByName(t.1);
    SortByNameSorted(t.1);
    assert multiset(sorted) == multiset(t.1) <= multiset(d) by {
      assert multiset(t.0) + multiset(t.1) == multiset(d);
    }
    UniqueStemsOfPart(d, sorted, stemOf);
    UnmappedPermuted(t.1, sorted, stemOf, keys, toFilename);
    ConcatInBundleOrder(t.0, sorted, stemOf, keys, toFilename);
  }

  /**
   * get_ordered_files: the key loop moves each key's file out of the dict
   * into the result; the files left over follow, sorted by name. The dict is
   * keyed by `stemOf`; `GetOrderedFiles` is this with pathlib's stems.
   */
  method OrderFilesByKeys(files: seq<FragmentFile>, stemOf: string -> string, keys: seq<string>,
                          toFilename: string -> string) returns (orderedFiles: seq<FragmentFile>)
    ensures orderedFiles == OrderedBy(files, stemOf, keys, toFilename)
  {
    ghost var whole := KeyPass(FileDict(files, stemOf), stemOf, keys, toFilename, 0, []);
    var fileDict := FileDict(files, stemOf);
    orderedFiles := [];
    for s := 0 to |keys|
      invariant KeyPass(fileDict, stemOf, keys, toFilename, s, orderedFiles) == whole
    {
      var filename := toFilename(keys[s]);
      var j := Find(fileDict, stemOf, filename);
      if j < |fileDict| {
        orderedFiles := orderedFiles + [fileDict[j]];
        fileDict := Remove(fileDict, j);
      }
    }
    var remainingFiles := SortByName(fileDict);
    orderedFiles := orderedFiles + remainingFiles;
  }

  /** get_ordered_files as the scripts call it: files keyed by `Path.stem`. */
  method GetOrderedFiles(files: seq<FragmentFile>, keys: seq<string>, toFilename: string -> string)
    returns (orderedFiles: seq<FragmentFile>)
    ensures orderedFiles == OrderedFiles(files, keys, toFilename)
  {
    orderedFiles := OrderFilesByKeys(files, Stem, keys, toFilename);
  }

  // ---------------------------------------------------------------------
  // strip_yaml_frontmatter and strip_header
  // ---------------------------------------------------------------------

  /** `line.strip() == '---'`: a YAML frontmatter fence. */
  predicate IsFence(line: string) {
    Strip(line) == "---"
  }

  /** Index of the first fence at or after `from`, or `|lines|`. */
  function NextFence(lines: seq<string>, from: nat): (i: nat)
    requires from <= |lines|
    ensures from <= i <= |lines|
    ensures forall k :: from <= k < i ==> !IsFence(lines[k])
    ensures i < |lines| ==> IsFence(lines[i])
    decreases |lines| - from
  {
    if from == |lines| || IsFence(lines[from]) then from else NextFence(lines, from + 1)
  }

  lemma {:induction false} NextFenceIs(lines: seq<string>, from: nat, i: nat)
    requires from <= i <= |lines|
    requires forall k :: from <= k < i ==> !IsFence(lines[k])
    requires i < |lines| ==> IsFence(lines[i])
    ensures NextFence(lines, from) == i
    decreases i - from
  {
    if from < i {
      NextFenceIs(lines, from + 1, i);
    }
  }

  /**
   * The text strip_yaml_frontmatter returns: when the first line is a fence
   * and a later line closes it, the lines after the closing fence, rejoined,
   * without leading newlines; otherwise the text unchanged.
   */
  function WithoutFrontmatter(text: string): string {
    var lines := SplitLines(text);
    if lines != [] && IsFence(lines[0]) && NextFence(lines, 1) < |lines| then
      LStripChar(Join(lines[NextFence(lines, 1) + 1..], "\n"), '\n')
    else text
  }

  /** strip_yaml_frontmatter: the scan for the closing fence. */
  method StripYamlFrontmatter(text: string) returns (r: string)
    ensures r == WithoutFrontmatter(text)
  {
    var lines := SplitLines(text);
    if lines != [] && IsFence(lines[0]) {
      for i := 1 to |lines|
        invariant forall k :: 1 <= k < i ==> !IsFence(lines[k])
      {
        if IsFence(lines[i]) {
          NextFenceIs(lines, 1, i);
          ClosedFrontmatter(text, lines, i);
          return LStripChar(Join(lines[i + 1..], "\n"), '\n');
        }
      }
      NextFenceIs(lines, 1, |lines|);
    }
    return text;
  }

  /** The frontmatter of `text` closes at line `i`. */
  lemma ClosedFrontmatter(text: string, lines: seq<string>, i: nat)
    requires lines == SplitLines(text) && lines != [] && IsFence(lines[0])
    requires 0 < i < |lines| && NextFence(lines, 1) == i
    ensures WithoutFrontmatter(text) == LStripChar(Join(lines[i + 1..], "\n"), '\n')
  {
  }

  /** The lines without the blank lines at their front. */
  function DropLeadingBlank(lines: seq<string>): (r: seq<string>)
    ensures |r| <= |lines| && r == lines[|lines| - |r|..]
    ensures forall k :: 0 <= k < |lines| - |r| ==> IsBlank(lines[k])
    ensures r == [] || !IsBlank(r[0])
  {
    if lines != [] && IsBlank(lines[0]) then
      var r := DropLeadingBlank(lines[1..]);
      assert lines[1..][|lines| - 1 - |r|..] == lines[|lines| - |r|..];
      r
    else
      assert lines[0..] == lines;
      lines
  }

  /**
   * The text strip_header returns: when the first line opens a section, the
   * lines after it, less the blank lines right after it, rejoined; otherwise
   * the text unchanged.
   */
  function WithoutHeader(text: string): string {
    var lines := SplitLines(text);
    if lines != [] && IsSectionHeader(lines[0]) then Join(DropLeadingBlank(lines[1..]), "\n") else text
  }

  /** strip_header: drop the header line, then blank lines one at a time. */
  method StripHeader(text: string) returns (r: string)
    ensures r == WithoutHeader(text)
  {
    var lines := SplitLines(text);
    if lines != [] && IsSectionHeader(lines[0]) {
      var remainingLines := lines[1..];
      while remainingLines != [] && IsBlank(remainingLines[0])
        invariant DropLeadingBlank(remainingLines) == DropLeadingBlank(lines[1..])
        decreases |remainingLines|
      {
        remainingLines := remainingLines[1..];
      }
      return Join(remainingLines, "\n");
    }
    return text;
  }

  /** Text whose first line does not open a section comes back from strip_header as it was. */
  lemma WithoutHeaderUnchanged(text: string)
    requires text == [] || !IsSectionHeader(SplitLines(text)[0])
    ensures WithoutHeader(text) == text
  {
  }

  /**
   * Once strip_header drops a header, what it returns is empty or has a
   * non-blank first line: the first line after the header that is not blank.
   */
  lemma WithoutHeaderStartsNonBlank(text: string)
    requires SplitLines(text) != [] && IsSectionHeader(SplitLines(text)[0])
    ensures var r, d := WithoutHeader(text), DropLeadingBlank(SplitLines(text)[1..]);
      && (r == [] <==> d == [])
      && (r != [] ==> SplitLines(r)[0] == d[0] && !IsBlank(SplitLines(r)[0]))
  {
    var lines := SplitLines(text);
    var d := DropLeadingBlank(lines[1..]);
    if d != [] {
      assert d[0] in lines;
      assert d[0] != [] by { assert !AllSpace(d[0]); }
      JoinFirstLine(d);
    }
  }

  // ---------------------------------------------------------------------
  // The bundle: bundle_cursor_rules and bundle_github_instructions
  // ---------------------------------------------------------------------

  /** One part of the bundle: a `## heading` line and a blank line when there is a heading, then the body. */
  datatype Block = Block(heading: Option<string>, body: string)

  /** What is written for one block: the heading, the body, then a blank line. */
  function RenderBlock(b: Block): string {
    (if b.heading.Some? then "## " + b.heading.value + "\n\n" else "") + b.body + "\n\n"
  }

  /** The bundle text: the blocks written one after another. */
  function Render(blocks: seq<Block>): string {
    if blocks == [] then "" else Render(blocks[..|blocks| - 1]) + RenderBlock(blocks[|blocks| - 1])
  }

  lemma RenderSnoc(blocks: seq<Block>, b: Block)
    ensures Render(blocks + [b]) == Render(blocks) + RenderBlock(b)
  {
    assert (blocks + [b])[..|blocks|] == blocks;
  }

  /** The body written for a fragment: its text stripped, without frontmatter and without its first header. */
  function FragmentBody(content: string): string {
    WithoutHeader(WithoutFrontmatter(Strip(content)))
  }

  /** `[f for f in rule_files if f.stem == "general"]` */
  function GeneralRules(files: seq<FragmentFile>): (g: seq<FragmentFile>)
    ensures forall x :: x in g <==> x in files && Stem(x.name) == "general"
  {
    if files == [] then []
    else (if Stem(files[0].name) == "general" then [files[0]] else []) + GeneralRules(files[1..])
  }

  /** `[f for f in rule_files if f.stem != "general"]` */
  function OtherRules(files: seq<FragmentFile>): (o: seq<FragmentFile>)
    ensures forall x :: x in o <==> x in files && Stem(x.name) != "general"
  {
    if files == [] then []
    else (if Stem(files[0].name) != "general" then [files[0]] else []) + OtherRules(files[1..])
  }

  /** `general + ordered_others`: the order in which the rule files are bundled. */
  function CursorOrder(ruleFiles: seq<FragmentFile>, keys: seq<string>, toFilename: string -> string)
    : seq<FragmentFile>
  {
    GeneralRules(ruleFiles) + OrderedFiles(OtherRules(ruleFiles), keys, toFilename)
  }

  /** The block of a rule file with text: headed by its section name unless it is general.mdc. */
  function CursorBlockOf(f: FragmentFile, toHeader: string -> string): Block {
    Block(if Stem(f.name) != "general" then Some(toHeader(Stem(f.name))) else None, FragmentBody(f.content))
  }

  /** The fragment files with any text once stripped: the ones a bundling loop does not skip. */
  function NonEmptyFiles(files: seq<FragmentFile>): (r: seq<FragmentFile>)
    ensures forall x :: x in r <==> x in files && Strip(x.content) != []
  {
    if files == [] then []
    else
      var f := files[|files| - 1];
      NonEmptyFiles(files[..|files| - 1]) + (if Strip(f.content) != [] then [f] else [])
  }

  /**
   * The blocks a bundling loop writes for `files`, one turn per file: a file
   * whose text strips to nothing is skipped, any other becomes `blockOf(f)`.
   */
  function Blocks(files: seq<FragmentFile>, blockOf: FragmentFile -> Block): seq<Block> {
    if files == [] then []
    else
      var f := files[|files| - 1];
      Blocks(files[..|files| - 1], blockOf) + (if Strip(f.content) == [] then [] else [blockOf(f)])
  }

  lemma BlocksSnoc(files: seq<FragmentFile>, f: FragmentFile, blockOf: FragmentFile -> Block)
    ensures Strip(f.content) == [] ==> Blocks(files + [f], blockOf) == Blocks(files, blockOf)
    ensures Strip(f.content) != [] ==> Blocks(files + [f], blockOf) == Blocks(files, blockOf) + [blockOf(f)]
  {
    assert (files + [f])[..|files|] == files;
  }

  /** The blocks are those of the files with text, in order, each built from its own file. */
  lemma {:induction false} BlocksOfNonEmpty(files: seq<FragmentFile>, blockOf: FragmentFile -> Block)
    ensures |Blocks(files, blockOf)| == |NonEmptyFiles(files)|
    ensures forall i :: 0 <= i < |NonEmptyFiles(files)| ==> Blocks(files, blockOf)[i] == blockOf(NonEmptyFiles(files)[i])
  {
    if files != [] {
      var init, f := files[..|files| - 1], files[|files| - 1];
      BlocksOfNonEmpty(init, blockOf);
      SnocSplit([], files);
      BlocksSnoc(init, f, blockOf);
      NonEmptySnoc(init, f);
      var bs, ne := Blocks(init, blockOf), NonEmptyFiles(init);
      if Strip(f.content) != [] {
        forall i | 0 <= i < |ne| + 1 ensures (bs + [blockOf(f)])[i] == blockOf((ne + [f])[i]) {
          if i < |ne| { assert (bs + [blockOf(f)])[i] == bs[i]; assert (ne + [f])[i] == ne[i]; }
        }
      }
    }
  }

  lemma NonEmptySnoc(files: seq<FragmentFile>, f: FragmentFile)
    ensures Strip(f.content) == [] ==> NonEmptyFiles(files + [f]) == NonEmptyFiles(files)
    ensures Strip(f.content) != [] ==> NonEmptyFiles(files + [f]) == NonEmptyFiles(files) + [f]
  {
    assert (files + [f])[..|files|] == files;
  }

  /** Bundling two lists one after the other writes the blocks of each in turn. */
  lemma {:induction false} BlocksAppend(a: seq<FragmentFile>, b: seq<FragmentFile>, blockOf: FragmentFile -> Block)
    ensures Blocks(a + b, blockOf) == Blocks(a, blockOf) + Blocks(b, blockOf)
    decreases |b|
  {
    if b != [] {
      var init, f := b[..|b| - 1], b[|b| - 1];
      BlocksAppend(a, init, blockOf);
      SnocSplit(a, b);
      BlocksSnoc(a + init, f, blockOf);
      BlocksSnoc(init, f, blockOf);
      if Strip(f.content) != [] {
        AppendAssoc(Blocks(a, blockOf), Blocks(init, blockOf), [blockOf(f)]);
      }
    } else {
      assert a + b == a;
    }
  }

  /** Every block written comes from one of the files. */
  lemma BlocksFrom(files: seq<FragmentFile>, blockOf: FragmentFile -> Block)
    ensures forall i :: 0 <= i < |Blocks(files, blockOf)| ==> exists f :: f in files && Blocks(files, blockOf)[i] == blockOf(f)
  {
    BlocksOfNonEmpty(files, blockOf);
    var ne := NonEmptyFiles(files);
    forall i | 0 <= i < |Blocks(files, blockOf)| ensures exists f :: f in files && Blocks(files, blockOf)[i] == blockOf(f) {
      assert ne[i] in ne;
    }
  }

  /** The block bundle_cursor_rules writes for a rule file with text. */
  function CursorBlockMaker(toHeader: string -> string): FragmentFile -> Block {
    f => CursorBlockOf(f, toHeader)
  }

  /**
   * The heading of `python.mdc` is the one filename_to_header gives for
   * `python`; `general.mdc` is written without one.
   */
  lemma CursorHeading(base: string, content: string, toHeader: string -> string)
    requires base != []
    ensures var b := CursorBlockOf(FragmentFile(base + ".mdc", content), toHeader);
      b.heading == if base == "general" then None else Some(toHeader(base))
  {
    assert base + ".mdc" == base + "." + "mdc";
    StemOfSuffixed(base, "mdc");
  }

  /** Every block is written with a closing blank line, so a non-empty bundle ends with one. */
  lemma RenderEndsWithBlankLine(blocks: seq<Block>)
    requires blocks != []
    ensures |Render(blocks)| >= 2 && Render(blocks)[|Render(blocks)| - 2..] == "\n\n"
  {
    var r := RenderBlock(blocks[|blocks| - 1]);
    assert r[|r| - 2..] == "\n\n";
  }

  /** The blocks bundle_cursor_rules writes for `files`. */
  function CursorBlocks(files: seq<FragmentFile>, toHeader: string -> string): seq<Block> {
    Blocks(files, CursorBlockMaker(toHeader))
  }

  /** bundle_cursor_rules, with the listed rule files given and the bundle text returned. */
  method BundleCursorRules(ruleFiles: seq<FragmentFile>, keys: seq<string>, toFilename: string -> string,
                           toHeader: string -> string) returns (out: string)
    ensures out == Render(CursorBlocks(CursorOrder(ruleFiles, keys, toFilename), toHeader))
  {
    var general := GeneralRules(ruleFiles);
    var others := OtherRules(ruleFiles);
    var orderedOthers := GetOrderedFiles(others, keys, toFilename);
    var ordered := general + orderedOthers;
    out := WriteRuleBlocks(ordered, toHeader);
  }

  /** Three writes after `out` add their concatenation. */
  lemma WritesAppend(out: string, a: string, b: string, c: string)
    ensures out + a + b + c == out + (a + b + c)
  {
  }

  /** The loop of bundle_cursor_rules over the ordered rule files. */
  method WriteRuleBlocks(ordered: seq<FragmentFile>, toHeader: string -> string) returns (out: string)
    ensures out == Render(CursorBlocks(ordered, toHeader))
  {
    out := "";
    for i := 0 to |ordered|
      invariant out == Render(CursorBlocks(ordered[..i], toHeader))
    {
      var ruleFile := ordered[i];
      assert ordered[..i + 1] == ordered[..i] + [ruleFile];
      BlocksSnoc(ordered[..i], ruleFile, CursorBlockMaker(toHeader));
      var content := Strip(ruleFile.content);
      if content == [] {
        continue;
      }
      content := StripYamlFrontmatter(content);
      content := StripHeader(content);
      ghost var block := CursorBlockOf(ruleFile, toHeader);
      assert block.body == content;
      var header := toHeader(Stem(ruleFile.name));
      ghost var before := out;
      var heading: string := "";
      if Stem(ruleFile.name) != "general" {
        heading := "## " + header + "\n\n";
        out := out + heading;
      }
      assert out == before + heading;
      out := out + content;
      out := out + "\n\n";
      WritesAppend(before, heading, content, "\n\n");
      assert RenderBlock(block) == heading + content + "\n\n";
      RenderSnoc(CursorBlocks(ordered[..i], toHeader), block);
    }
    assert ordered[..|ordered|] == ordered;
  }

  predicate Unheaded(blocks: seq<Block>) {
    forall i :: 0 <= i < |blocks| ==> blocks[i].heading == None
  }

  predicate AllHeaded(blocks: seq<Block>) {
    forall i :: 0 <= i < |blocks| ==> blocks[i].heading.Some?
  }

  /** Files that all make headed blocks give only headed blocks. */
  lemma BlocksAllHeaded(files: seq<FragmentFile>, blockOf: FragmentFile -> Block)
    requires forall f :: f in files ==> blockOf(f).heading.Some?
    ensures AllHeaded(Blocks(files, blockOf))
  {
    BlocksFrom(files, blockOf);
  }

  /** Files that all make unheaded blocks give only unheaded blocks. */
  lemma BlocksUnheaded(files: seq<FragmentFile>, blockOf: FragmentFile -> Block)
    requires forall f :: f in files ==> blockOf(f).heading == None
    ensures Unheaded(Blocks(files, blockOf))
  {
    BlocksFrom(files, blockOf);
  }

  /** general.mdc is written without a heading. */
  lemma GeneralBlocksUnheaded(ruleFiles: seq<FragmentFile>, toHeader: string -> string)
    ensures Unheaded(CursorBlocks(GeneralRules(ruleFiles), toHeader))
  {
    BlocksUnheaded(GeneralRules(ruleFiles), CursorBlockMaker(toHeader));
  }

  /** Every other rule file is written under a heading. */
  lemma OtherBlocksHeaded(ruleFiles: seq<FragmentFile>, keys: seq<string>, toFilename: string -> string,
                          toHeader: string -> string)
    ensures AllHeaded(CursorBlocks(OrderedFiles(OtherRules(ruleFiles), keys, toFilename), toHeader))
  {
    var others := OrderedFiles(OtherRules(ruleFiles), keys, toFilename);
    OrderedByMembers(OtherRules(ruleFiles), Stem, keys, toFilename);
    assert forall f :: f in others ==> f in OtherRules(ruleFiles);
    BlocksAllHeaded(others, CursorBlockMaker(toHeader));
  }

  /** Unheaded blocks followed by headed ones: once a heading appears, every later block has one. */
  predicate HeadingsLast(blocks: seq<Block>) {
    forall i, j :: 0 <= i < j < |blocks| && blocks[i].heading.Some? ==> blocks[j].heading.Some?
  }

  lemma HeadedAfterUnheaded(g: seq<Block>, o: seq<Block>)
    requires Unheaded(g) && AllHeaded(o)
    ensures HeadingsLast(g + o)
  {
    var blocks := g + o;
    forall k | 0 <= k < |blocks| ensures blocks[k].heading.Some? <==> k >= |g| {
      if k < |g| {
        assert blocks[k] == g[k];
      } else {
        assert blocks[k] == o[k - |g|];
      }
    }
  }

  /**
   * The cursor bundle is the general rule's text without a heading, then
   * each other rule under its section heading: no block after a headed one
   * is unheaded.
   */
  lemma CursorBundleGeneralFirst(ruleFiles: seq<FragmentFile>, keys: seq<string>, toFilename: string -> string,
                                 toHeader: string -> string)
    ensures HeadingsLast(CursorBlocks(CursorOrder(ruleFiles, keys, toFilename), toHeader))
  {
    var general := GeneralRules(ruleFiles);
    var others := OrderedFiles(OtherRules(ruleFiles), keys, toFilename);
    BlocksAppend(general, others, CursorBlockMaker(toHeader));
    GeneralBlocksUnheaded(ruleFiles, toHeader);
    OtherBlocksHeaded(ruleFiles, keys, toFilename, toHeader);
    HeadedAfterUnheaded(CursorBlocks(general, toHeader), CursorBlocks(others, toHeader));
  }

  /** Writing two lists of blocks one after the other. */
  lemma {:induction false} RenderAppend(a: seq<Block>, b: seq<Block>)
    ensures Render(a + b) == Render(a) + Render(b)
    decreases |b|
  {
    if b == [] {
      assert a + b == a;
    } else {
      var init, x := b[..|b| - 1], b[|b| - 1];
      RenderAppend(a, init);
      SnocSplit(a, b);
      RenderSnoc(a + init, x);
      RenderSnoc(init, x);
      AppendAssoc(Render(a), Render(init), RenderBlock(x));
    }
  }

  // ---------------------------------------------------------------------
  // bundle_github_instructions
  // ---------------------------------------------------------------------

  /** The glob `*.instructions.md`: a name that ends with that suffix. */
  predicate IsInstructionsName(name: string) {
    |name| >= 16 && name[|name| - 16..] == ".instructions.md"
  }

  /** The stem of `python.instructions.md` is `python.instructions`: it keeps a dot. */
  lemma InstructionsStem(name: string)
    requires IsInstructionsName(name)
    ensures Stem(name) == name[..|name| - 3]
    ensures |Stem(name)| >= 13 && Stem(name)[|Stem(name)| - 13..] == ".instructions"
  {
    var base := name[..|name| - 3];
    assert name == base + "." + "md" by {
      assert name[|name| - 3..] == ".md" by {
        assert name[|name| - 3..] == name[|name| - 16..][13..];
      }
    }
    StemOfSuffixed(base, "md");
    assert base[|base| - 13..] == name[|name| - 16..][..13];
  }

  /**
   * The order bundle_github_instructions computes as written: get_ordered_files
   * keys the dict by stems such as `python.instructions` and looks them up
   * by `header_to_filename(key)`.
   */
  function GithubOrderAsWritten(instrFiles: seq<FragmentFile>, keys: seq<string>, toFilename: string -> string)
    : seq<FragmentFile>
  {
    OrderedFiles(instrFiles, keys, toFilename)
  }

  /** A file name as header_to_filename makes it, with the suffix the instruction stems keep. */
  function InstructionsFilename(toFilename: string -> string): string -> string {
    k => toFilename(k) + ".instructions"
  }

  /** The order the instruction files are bundled in: by the keys' `.instructions` stems, then by name. */
  function GithubOrder(instrFiles: seq<FragmentFile>, keys: seq<string>, toFilename: string -> string)
    : seq<FragmentFile>
  {
    OrderedFiles(instrFiles, keys, InstructionsFilename(toFilename))
  }

  /** With every file unmapped, get_ordered_files orders strictly by file name. */
  lemma OrderedByNameWhenUnmapped(files: seq<FragmentFile>, stemOf: string -> string, keys: seq<string>,
                                  toFilename: string -> string)
    requires forall x :: x in files ==> FirstKey(keys, toFilename, stemOf(x.name)) == |keys|
    ensures var r := OrderedBy(files, stemOf, keys, toFilename);
      forall i, j :: 0 <= i < j < |r| ==> LexLess(r[i].name, r[j].name)
  {
    var r := OrderedBy(files, stemOf, keys, toFilename);
    OrderedByMembers(files, stemOf, keys, toFilename);
    OrderedByOrder(files, stemOf, keys, toFilename);
    forall i, j | 0 <= i < j < |r| ensures LexLess(r[i].name, r[j].name) {
      assert r[i] in r && r[j] in r;
      assert r[i] in files && r[j] in files;
      assert InBundleOrder(r[i], r[j], stemOf, keys, toFilename);
    }
  }

  /**
   * As written, the key order never applies to the instruction files: when
   * no name header_to_filename gives ends in `.instructions`, every
   * `*.instructions.md` file is unmapped and the bundle is ordered strictly
   * by file name whatever the keys say.
   */
  lemma GithubOrderIgnoresKeys(instrFiles: seq<FragmentFile>, keys: seq<string>, toFilename: string -> string)
    requires forall i :: 0 <= i < |instrFiles| ==> IsInstructionsName(instrFiles[i].name)
    requires forall k :: 0 <= k < |keys| ==> !EndsWith(toFilename(keys[k]), ".instructions")
    ensures var r := GithubOrderAsWritten(instrFiles, keys, toFilename);
      forall i, j :: 0 <= i < j < |r| ==> LexLess(r[i].name, r[j].name)
  {
    forall x | x in instrFiles ensures FirstKey(keys, toFilename, Stem(x.name)) == |keys| {
      InstructionsStem(x.name);
      var k := FirstKey(keys, toFilename, Stem(x.name));
    }
    OrderedByNameWhenUnmapped(instrFiles, Stem, keys, toFilename);
  }

  /**
   * With the `.instructions` suffix, the file explode writes for a key,
   * `header_to_filename(key) + ".instructions.md"`, is mapped to that key
   * or an earlier one with the same file name.
   */
  lemma InstructionsFileMapped(keys: seq<string>, toFilename: string -> string, k: nat)
    requires k < |keys|
    ensures var name := toFilename(keys[k]) + ".instructions.md";
      FirstKey(keys, InstructionsFilename(toFilename), Stem(name)) <= k
  {
    var base := toFilename(keys[k]) + ".instructions";
    assert toFilename(keys[k]) + ".instructions.md" == base + "." + "md";
    StemOfSuffixed(base, "md");
    assert InstructionsFilename(toFilename)(keys[k]) == base;
  }

  /**
   * The corrected order: the instruction files mapped to a key come first,
   * by the position of that key, then the rest by name.
   */
  lemma GithubOrderFollowsKeys(instrFiles: seq<FragmentFile>, keys: seq<string>, toFilename: string -> string)
    ensures var r := GithubOrder(instrFiles, keys, toFilename);
      forall i, j :: 0 <= i < j < |r| ==> InBundleOrder(r[i], r[j], Stem, keys, InstructionsFilename(toFilename))
  {
    OrderedByOrder(instrFiles, Stem, keys, InstructionsFilename(toFilename));
  }

  /** `.github/copilot-instructions.md`, when it exists and has text: written first, without a heading. */
  function CopilotGeneralBlocks(copilotGeneral: Option<string>): seq<Block> {
    if copilotGeneral.Some? && Strip(copilotGeneral.value) != [] then [Block(None, Strip(copilotGeneral.value))]
    else []
  }

  /** The block of an instruction file with text: headed by the section named after its stem without `.instructions`. */
  function InstructionsBlockOf(f: FragmentFile, toHeader: string -> string): Block {
    Block(Some(toHeader(RemoveAll(Stem(f.name), ".instructions"))), FragmentBody(f.content))
  }

  /**
   * Removing `.instructions` from `base.instructions` leaves `base` when
   * `base` holds no `.instructions` of its own. A dot in `base` does no
   * harm: the only dot of `.instructions` is its first character, so no
   * occurrence can start inside `base` and run into the suffix.
   */
  lemma {:induction false} RemoveInstructionsSuffix(base: string)
    requires !Contains(base, ".instructions")
    ensures RemoveAll(base + ".instructions", ".instructions") == base
  {
    var p := ".instructions";
    var s := base + p;
    if base == [] {
      assert s == p && s[..|p|] == p;
      assert s[|p|..] == [];
    } else {
      assert s[..|p|] != p by {
        if |base| >= |p| {
          assert s[..|p|] == Window(base, 0, |p|);
        } else {
          assert s[..|p|][|base|] == '.';
          assert forall j :: 1 <= j < |p| ==> p[j] != '.';
        }
      }
      assert s[1..] == base[1..] + p;
      assert !Contains(base[1..], p) by {
        forall i: nat | i + |p| <= |base| - 1 ensures Window(base[1..], i, |p|) != p {
          assert Window(base[1..], i, |p|) == Window(base, i + 1, |p|);
        }
      }
      RemoveInstructionsSuffix(base[1..]);
      assert base == [base[0]] + base[1..];
    }
  }

  /**
   * The heading of `python.instructions.md` is the one filename_to_header
   * gives for `python`, and that of `node.js.instructions.md` the one it
   * gives for `node.js`.
   */
  lemma InstructionsHeading(base: string, content: string, toHeader: string -> string)
    requires !Contains(base, ".instructions")
    ensures InstructionsBlockOf(FragmentFile(base + ".instructions.md", content), toHeader).heading
            == Some(toHeader(base))
  {
    var name := base + ".instructions.md";
    assert name == (base + ".instructions") + "." + "md";
    StemOfSuffixed(base + ".instructions", "md");
    RemoveInstructionsSuffix(base);
  }

  /** A dotted base such as `node.js` is headed by its own name. */
  lemma DottedInstructionsHeading(content: string, toHeader: string -> string)
    ensures InstructionsBlockOf(FragmentFile("node.js.instructions.md", content), toHeader).heading
            == Some(toHeader("node.js"))
  {
    assert !Contains("node.js", ".instructions");
    assert "node.js" + ".instructions.md" == "node.js.instructions.md";
    InstructionsHeading("node.js", content, toHeader);
  }

  function InstructionsBlockMaker(toHeader: string -> string): FragmentFile -> Block {
    f => InstructionsBlockOf(f, toHeader)
  }

  /** The blocks the loop of bundle_github_instructions writes for `files`. */
  function InstructionsBlocks(files: seq<FragmentFile>, toHeader: string -> string): seq<Block> {
    Blocks(files, InstructionsBlockMaker(toHeader))
  }

  /** The blocks of the github bundle once the instruction files are ordered. */
  function GithubBundleBlocks(copilotGeneral: Option<string>, ordered: seq<FragmentFile>,
                              toHeader: string -> string): seq<Block>
  {
    CopilotGeneralBlocks(copilotGeneral) + InstructionsBlocks(ordered, toHeader)
  }

  /** The blocks bundle_github_instructions writes, in the order it computes as written. */
  function GithubBlocks(copilotGeneral: Option<string>, instrFiles: seq<FragmentFile>, keys: seq<string>,
                        toFilename: string -> string, toHeader: string -> string): seq<Block>
  {
    GithubBundleBlocks(copilotGeneral, GithubOrderAsWritten(instrFiles, keys, toFilename), toHeader)
  }

  /** The blocks of the github bundle with the corrected order. */
  function CorrectedGithubBlocks(copilotGeneral: Option<string>, instrFiles: seq<FragmentFile>, keys: seq<string>,
                                 toFilename: string -> string, toHeader: string -> string): seq<Block>
  {
    GithubBundleBlocks(copilotGeneral, GithubOrder(instrFiles, keys, toFilename), toHeader)
  }

  /**
   * bundle_github_instructions as written, with the general instructions
   * (`None` when the file does not exist) and the listed instruction files
   * given and the bundle text returned.
   */
  method BundleGithubInstructions(copilotGeneral: Option<string>, instrFiles: seq<FragmentFile>, keys: seq<string>,
                                  toFilename: string -> string, toHeader: string -> string) returns (out: string)
    ensures out == Render(GithubBlocks(copilotGeneral, instrFiles, keys, toFilename, toHeader))
  {
    var orderedFiles := GetOrderedFiles(instrFiles, keys, toFilename);
    out := WriteGithubBundle(copilotGeneral, orderedFiles, toHeader);
  }

  /** bundle_github_instructions with the lookup by `header_to_filename(key) + ".instructions"`. */
  method CorrectedBundleGithubInstructions(copilotGeneral: Option<string>, instrFiles: seq<FragmentFile>,
                                           keys: seq<string>, toFilename: string -> string,
                                           toHeader: string -> string) returns (out: string)
    ensures out == Render(CorrectedGithubBlocks(copilotGeneral, instrFiles, keys, toFilename, toHeader))
  {
    var orderedFiles := GetOrderedFiles(instrFiles, keys, InstructionsFilename(toFilename));
    out := WriteGithubBundle(copilotGeneral, orderedFiles, toHeader);
  }

  /** The writes of bundle_github_instructions once the files are ordered. */
  method WriteGithubBundle(copilotGeneral: Option<string>, orderedFiles: seq<FragmentFile>,
                           toHeader: string -> string) returns (out: string)
    ensures out == Render(GithubBundleBlocks(copilotGeneral, orderedFiles, toHeader))
  {
    out := "";
    if copilotGeneral.Some? {
      var content := Strip(copilotGeneral.value);
      if content != [] {
        out := out + content;
        out := out + "\n\n";
        assert out == RenderBlock(Block(None, content));
        RenderSnoc([], Block(None, content));
      }
    }
    ghost var general := out;
    assert general == Render(CopilotGeneralBlocks(copilotGeneral));
    var written := WriteInstructionBlocks(orderedFiles, toHeader);
    out := out + written;
    RenderAppend(CopilotGeneralBlocks(copilotGeneral), InstructionsBlocks(orderedFiles, toHeader));
  }

  /** The writes for a headed block add its rendering. */
  lemma HeadedWrites(out: string, header: string, content: string)
    ensures out + "## " + header + "\n\n" + content + "\n\n" == out + RenderBlock(Block(Some(header), content))
  {
  }

  /** The loop of bundle_github_instructions over the ordered instruction files: what it writes. */
  method WriteInstructionBlocks(ordered: seq<FragmentFile>, toHeader: string -> string) returns (out: string)
    ensures out == Render(InstructionsBlocks(ordered, toHeader))
  {
    out := "";
    for i := 0 to |ordered|
      invariant out == Render(InstructionsBlocks(ordered[..i], toHeader))
    {
      var instrFile := ordered[i];
      assert ordered[..i + 1] == ordered[..i] + [instrFile];
      BlocksSnoc(ordered[..i], instrFile, InstructionsBlockMaker(toHeader));
      var content := Strip(instrFile.content);
      if content == [] {
        continue;
      }
      content := StripYamlFrontmatter(content);
      content := StripHeader(content);
      var header := toHeader(RemoveAll(Stem(instrFile.name), ".instructions"));
      ghost var before := out;
      out := out + "## " + header + "\n\n";
      out := out + content;
      out := out + "\n\n";
      HeadedWrites(before, header, content);
      RenderSnoc(InstructionsBlocks(ordered[..i], toHeader), InstructionsBlockOf(instrFile, toHeader));
    }
    assert ordered[..|ordered|] == ordered;
  }

  /**
   * The github bundle, in either order, is the general instructions without
   * a heading, then every instruction file under one.
   */
  lemma GithubBundleGeneralFirst(copilotGeneral: Option<string>, ordered: seq<FragmentFile>,
                                 toHeader: string -> string)
    ensures HeadingsLast(GithubBundleBlocks(copilotGeneral, ordered, toHeader))
    ensures |CopilotGeneralBlocks(copilotGeneral)| <= 1
    ensures AllHeaded(InstructionsBlocks(ordered, toHeader))
  {
    var g := CopilotGeneralBlocks(copilotGeneral);
    var o := InstructionsBlocks(ordered, toHeader);
    assert Unheaded(g);
    BlocksAllHeaded(ordered, InstructionsBlockMaker(toHeader));
    HeadedAfterUnheaded(g, o);
  }
}
