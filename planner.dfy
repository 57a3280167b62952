/**
 * `add_aliases`: scan the target directory for `<prefix><sequence>.<ext>`
 * files, read the alias file, plan a link for every alias whose target has a
 * file, then (unless only previewing) remove the files being replaced and
 * create the links, each in sorted order.
 *
 * The file system is abstract: the directory listing is an input, each
 * `os.remove` and `os.symlink` is an `Action`, and `failing` is the set of
 * actions the file system refuses. The log holds the actions that were
 * carried out, in order.
 */
module Planner {
  import opened Wrappers
  import opened Order
  import opened Codec
  import opened Diagnostics
  import opened AliasFile

  /** A call into the file system, with names relative to the target directory. */
  datatype Action =
    /** `os.remove(file)` */
    | Remove(file: string)
    /** `os.symlink(target, link)`: a link named `link` pointing at `target`. */
    | Symlink(target: string, link: string)

  /** Why a run raised. */
  datatype Fault =
    /** A directory entry matches the pattern but its middle part is not hex. */
    | BadFileName(name: string)
    /** The alias file has a malformed line or a non-hex alias token. */
    | BadAliasFile(error: LoadError)
    /** `os.remove` failed. */
    | RemoveFailed(file: string)
    /** `os.symlink` failed; the tool reports it and raises. */
    | SymlinkFailed(target: string, link: string)

  datatype Status = Returned | Raised(fault: Fault)

  /** Everything a run does: the actions carried out, the messages, and how it ended. */
  datatype Run = Run(log: seq<Action>, out: seq<Message>, status: Status)

  predicate Distinct<T(==)>(s: seq<T>) {
    forall i, j :: 0 <= i < j < |s| ==> s[i] != s[j]
  }

  lemma SortedIsDistinct<T>(r: seq<T>, key: T -> seq<nat>)
    requires Sorted(r, key)
    ensures Distinct(r)
  {
    forall i, j | 0 <= i < j < |r|
      ensures r[i] != r[j]
    {
      SortedDistinct(r, key, i, j);
    }
  }

  // ---------------------------------------------------------------------------
  // The directory scan

  /** `name` matches the glob pattern `<prefix>*.<ext>`. */
  predicate Matches(name: string, prefix: string, ext: string) {
    |prefix| + |ext| + 1 <= |name| &&
    name[..|prefix|] == prefix && name[|name| - |ext| - 1..] == "." + ext
  }

  /** `name[len(prefix):-(len(ext) + 1)]`: the part between the prefix and the extension. */
  function Middle(name: string, prefix: string, ext: string): (m: string)
    requires Matches(name, prefix, ext)
    ensures name == prefix + m + "." + ext
  {
    var m := name[|prefix|..|name| - |ext| - 1];
    assert name == name[..|prefix|] + m + name[|name| - |ext| - 1..];
    m
  }

  /** `a` is `b` with some elements left out: what remains keeps its order. */
  predicate Subsequence<T(==)>(a: seq<T>, b: seq<T>)
    decreases |b|
  {
    if |a| == 0 then true
    else if |b| == 0 then false
    else if a[0] == b[0] then Subsequence(a[1..], b[1..])
    else Subsequence(a, b[1..])
  }

  /** The names `glob` returns: the directory entries that match, in listing order. */
  function Globbed(listing: seq<string>, prefix: string, ext: string): (names: seq<string>)
    ensures forall n :: n in names <==> n in listing && Matches(n, prefix, ext)
    ensures Subsequence(names, listing)
    decreases |listing|
  {
    if |listing| == 0 then []
    else
      var rest := Globbed(listing[1..], prefix, ext);
      assert forall n :: n in listing <==> n == listing[0] || n in listing[1..];
      if Matches(listing[0], prefix, ext) then [listing[0]] + rest else rest
  }

  /** The sequence a file name stands for, `str_to_seq` of its middle part. */
  function FileKey(name: string, prefix: string, ext: string): Option<CodePoints>
    requires Matches(name, prefix, ext)
  {
    StrToSeq(Middle(name, prefix, ext))
  }

  predicate AllMatch(names: seq<string>, prefix: string, ext: string) {
    forall j :: 0 <= j < |names| ==> Matches(names[j], prefix, ext)
  }

  /**
   * The `seq_to_file` comprehension over `names`: each name under its
   * sequence, a later name replacing an earlier one with the same sequence;
   * it raises on the first name whose middle part is not hex.
   */
  function SeqToFile(names: seq<string>, prefix: string, ext: string): Result<map<CodePoints, string>, string>
    requires AllMatch(names, prefix, ext)
    decreases |names|
  {
    if |names| == 0 then Success(map[])
    else
      match SeqToFile(names[..|names| - 1], prefix, ext)
      case Failure(e) => Failure(e)
      case Success(m) =>
        var n := names[|names| - 1];
        match FileKey(n, prefix, ext)
        case None => Failure(n)
        case Some(k) => Success(m[k := n])
  }

  /** The directory scan of `add_aliases`: glob, then the comprehension. */
  function Scan(listing: seq<string>, prefix: string, ext: string): Result<map<CodePoints, string>, string> {
    var names := Globbed(listing, prefix, ext);
    assert AllMatch(names, prefix, ext) by {
      forall j | 0 <= j < |names| ensures Matches(names[j], prefix, ext) {
        assert names[j] in names;
      }
    }
    SeqToFile(names, prefix, ext)
  }

  /** The scan succeeds exactly when every name has a hex middle part. */
  lemma {:induction false} ScanSucceeds(names: seq<string>, prefix: string, ext: string)
    requires AllMatch(names, prefix, ext)
    ensures SeqToFile(names, prefix, ext).Success? <==>
            forall j :: 0 <= j < |names| ==> FileKey(names[j], prefix, ext).Some?
    decreases |names|
  {
    if |names| > 0 {
      var init := names[..|names| - 1];
      ScanSucceeds(init, prefix, ext);
      assert forall i :: 0 <= i < |init| ==> names[i] == init[i];
    }
  }

  /** When the scan fails, it names the first file without a hex middle part. */
  lemma {:induction false} ScanFailsAt(names: seq<string>, prefix: string, ext: string)
    requires AllMatch(names, prefix, ext)
    ensures SeqToFile(names, prefix, ext).Failure? ==>
            exists j :: 0 <= j < |names| && names[j] == SeqToFile(names, prefix, ext).error &&
                        FileKey(names[j], prefix, ext).None? &&
                        forall i :: 0 <= i < j ==> FileKey(names[i], prefix, ext).Some?
    decreases |names|
  {
    if |names| > 0 {
      var init := names[..|names| - 1];
      if SeqToFile(init, prefix, ext).Failure? {
        ScanFailsAt(init, prefix, ext);
        var j :| 0 <= j < |init| && init[j] == SeqToFile(init, prefix, ext).error &&
                 FileKey(init[j], prefix, ext).None? &&
                 forall i :: 0 <= i < j ==> FileKey(init[i], prefix, ext).Some?;
        assert names[j] == init[j];
        assert forall i :: 0 <= i < j ==> names[i] == init[i];
      } else if FileKey(names[|init|], prefix, ext).None? {
        ScanSucceeds(init, prefix, ext);
        var j := |init|;
        assert forall i :: 0 <= i < j ==> names[i] == init[i];
        assert names[j] == SeqToFile(names, prefix, ext).error;
      }
    }
  }

  /**
   * Every file the table names is one of the names, under its own sequence,
   * and every name's sequence is a key of the table.
   */
  lemma {:induction false} ScanEntries(names: seq<string>, prefix: string, ext: string, m: map<CodePoints, string>)
    requires AllMatch(names, prefix, ext)
    requires SeqToFile(names, prefix, ext) == Success(m)
    ensures forall k :: k in m ==> m[k] in names && Matches(m[k], prefix, ext) && FileKey(m[k], prefix, ext) == Some(k)
    ensures forall j :: 0 <= j < |names| ==> FileKey(names[j], prefix, ext).Some? && FileKey(names[j], prefix, ext).value in m
    decreases |names|
  {
    if |names| > 0 {
      var init := names[..|names| - 1];
      var m0 := SeqToFile(init, prefix, ext).value;
      ScanEntries(init, prefix, ext, m0);
      var n := names[|names| - 1];
      var k := FileKey(n, prefix, ext).value;
      assert m == m0[k := n];
      assert forall j :: 0 <= j < |init| ==> names[j] == init[j];
      forall j | 0 <= j < |names|
        ensures FileKey(names[j], prefix, ext).Some? && FileKey(names[j], prefix, ext).value in m
      {
        if j < |init| {
          assert FileKey(init[j], prefix, ext).value in m0;
        }
      }
    }
  }

  /** The table maps distinct sequences to distinct files. */
  lemma ScanInjective(names: seq<string>, prefix: string, ext: string, m: map<CodePoints, string>)
    requires AllMatch(names, prefix, ext)
    requires SeqToFile(names, prefix, ext) == Success(m)
    ensures InjectiveMap(m)
  {
    ScanEntries(names, prefix, ext, m);
  }

  /** The last name with a given sequence is the one the table keeps. */
  lemma {:induction false} ScanLastWins(names: seq<string>, prefix: string, ext: string, m: map<CodePoints, string>, j: nat)
    requires AllMatch(names, prefix, ext)
    requires SeqToFile(names, prefix, ext) == Success(m)
    requires j < |names| && FileKey(names[j], prefix, ext).Some?
    requires forall i :: j < i < |names| ==> FileKey(names[i], prefix, ext) != FileKey(names[j], prefix, ext)
    ensures FileKey(names[j], prefix, ext).value in m && m[FileKey(names[j], prefix, ext).value] == names[j]
    decreases |names|
  {
    var init := names[..|names| - 1];
    if j < |names| - 1 {
      ScanLastWins(init, prefix, ext, SeqToFile(init, prefix, ext).value, j);
      assert init[j] == names[j];
    }
  }

  /** No two keys share a value. */
  ghost predicate InjectiveMap<K, V>(m: map<K, V>) {
    forall a, b :: a in m && b in m && m[a] == m[b] ==> a == b
  }

  // ---------------------------------------------------------------------------
  // Alias names

  /** `'%s%s.%s' % (prefix, seq_to_str(als), ext)` */
  function AliasName(prefix: string, als: CodePoints, ext: string): string {
    prefix + SeqToStr(als) + "." + ext
  }

  /** Distinct aliases get distinct file names. */
  lemma AliasNameInjective(prefix: string, a: CodePoints, b: CodePoints, ext: string)
    requires AliasName(prefix, a, ext) == AliasName(prefix, b, ext)
    ensures a == b
  {
    var na, nb := AliasName(prefix, a, ext), AliasName(prefix, b, ext);
    assert SeqToStr(a) == na[|prefix|..|na| - |ext| - 1];
    assert SeqToStr(b) == nb[|prefix|..|nb| - |ext| - 1];
    SeqToStrInjective(a, b);
  }

  /** A link made for an alias is found again, under that alias, by a later scan. */
  lemma AliasNameScansBack(prefix: string, als: CodePoints, ext: string)
    requires |als| >= 1
    ensures Matches(AliasName(prefix, als, ext), prefix, ext)
    ensures FileKey(AliasName(prefix, als, ext), prefix, ext) == Some(als)
  {
    var n := AliasName(prefix, als, ext);
    assert n[..|prefix|] == prefix;
    assert n[|n| - |ext| - 1..] == "." + ext;
    assert Middle(n, prefix, ext) == SeqToStr(als);
    RoundTrip(als);
  }

  // ---------------------------------------------------------------------------
  // The plan

  /** What the loop over `sorted(aliases.items())` builds. */
  datatype Plan = Plan(toCreate: map<string, string>, toReplace: seq<string>, out: seq<Message>)

  /**
   * The alias `als` gets a link: its target has a file, and it has no file of
   * its own unless existing files are being replaced.
   */
  predicate Planned(aliases: AliasMap, seqToFile: map<CodePoints, string>, replace: bool, als: CodePoints)
    requires als in aliases
  {
    aliases[als] in seqToFile && (replace || als !in seqToFile)
  }

  predicate AllIn(order: seq<CodePoints>, aliases: AliasMap) {
    forall j :: 0 <= j < |order| ==> order[j] in aliases
  }

  /** The file name of each alias, for the prefix and extension of a run. */
  function Namer(prefix: string, ext: string): CodePoints -> string {
    als => AliasName(prefix, als, ext)
  }

  /** `name` gives distinct aliases distinct file names. */
  ghost predicate InjectiveFn(name: CodePoints -> string) {
    forall a, b :: name(a) == name(b) ==> a == b
  }

  lemma NamerInjective(prefix: string, ext: string)
    ensures InjectiveFn(Namer(prefix, ext))
  {
    forall a, b | Namer(prefix, ext)(a) == Namer(prefix, ext)(b)
      ensures a == b
    {
      AliasNameInjective(prefix, a, b, ext);
    }
  }

  /**
   * The plan after visiting the aliases of `order`, in that order, naming the
   * link of an alias by `name`.
   */
  function PlanOver(order: seq<CodePoints>, aliases: AliasMap, seqToFile: map<CodePoints, string>,
                    name: CodePoints -> string, replace: bool): Plan
    requires AllIn(order, aliases)
    decreases |order|
  {
    if |order| == 0 then Plan(map[], [], [])
    else
      Visit(PlanOver(order[..|order| - 1], aliases, seqToFile, name, replace),
            order[|order| - 1], aliases, seqToFile, name, replace)
  }

  /** One turn of the loop: the plan `p` after visiting the alias `als`. */
  function Visit(p: Plan, als: CodePoints, aliases: AliasMap, seqToFile: map<CodePoints, string>,
                 name: CodePoints -> string, replace: bool): Plan
    requires als in aliases
  {
    var trg := aliases[als];
    if trg !in seqToFile then
      p.(out := p.out + [TargetMissing(trg, als)])
    else if als in seqToFile && !replace then
      p.(out := p.out + [AliasExists(als)])
    else
      Plan(p.toCreate[name(als) := seqToFile[trg]],
           if als in seqToFile then p.toReplace + [seqToFile[als]] else p.toReplace,
           p.out)
  }

  /** The identity, as the sort key of alias sequences. */
  function Id(x: CodePoints): seq<nat> {
    x
  }

  /** The aliases in the order `sorted(aliases.items())` visits them. */
  ghost function AliasOrder(aliases: AliasMap): (order: seq<CodePoints>)
    ensures AllIn(order, aliases)
    ensures Distinct(order)
    ensures forall als :: als in order <==> als in aliases
  {
    var order := SortedList(aliases.Keys, Id);
    SortedIsDistinct(order, Id);
    assert AllIn(order, aliases) by {
      forall j | 0 <= j < |order| ensures order[j] in aliases {
        assert order[j] in order;
      }
    }
    order
  }

  /** The plan `add_aliases` makes: the aliases are visited in sorted order. */
  ghost function PlanFor(aliases: AliasMap, seqToFile: map<CodePoints, string>,
                         prefix: string, ext: string, replace: bool): Plan
  {
    PlanOver(AliasOrder(aliases), aliases, seqToFile, Namer(prefix, ext), replace)
  }

  /** Every link of the plan is named after an alias of `order` that gets one. */
  lemma {:induction false} PlanOverKeys(order: seq<CodePoints>, aliases: AliasMap, seqToFile: map<CodePoints, string>,
                                        name: CodePoints -> string, replace: bool)
    requires AllIn(order, aliases)
    ensures forall k :: k in PlanOver(order, aliases, seqToFile, name, replace).toCreate ==>
              exists j :: 0 <= j < |order| && Planned(aliases, seqToFile, replace, order[j]) && k == name(order[j])
    decreases |order|
  {
    if |order| > 0 {
      var init := order[..|order| - 1];
      var als := order[|order| - 1];
      assert AllIn(init, aliases);
      PlanOverKeys(init, aliases, seqToFile, name, replace);
      var p := PlanOver(init, aliases, seqToFile, name, replace);
      var p' := PlanOver(order, aliases, seqToFile, name, replace);
      forall k | k in p'.toCreate
        ensures exists j :: 0 <= j < |order| && Planned(aliases, seqToFile, replace, order[j]) && k == name(order[j])
      {
        if Planned(aliases, seqToFile, replace, als) && k == name(als) {
          assert order[|order| - 1] == als;
        } else {
          assert k in p.toCreate;
          var j :| 0 <= j < |init| && Planned(aliases, seqToFile, replace, init[j]) && k == name(init[j]);
          assert order[j] == init[j];
        }
      }
    }
  }

  lemma DistinctPrefix<T>(r: seq<T>, i: nat)
    requires Distinct(r) && i <= |r|
    ensures Distinct(r[..i])
  {
    forall a, b | 0 <= a < b < i ensures r[..i][a] != r[..i][b] {
      assert r[..i][a] == r[a] && r[..i][b] == r[b];
    }
  }

  /**
   * Over an order of distinct aliases, an alias gets a link exactly when it
   * is planned, and the link points at its target's file.
   */
  lemma {:induction false} PlanOverCreates(order: seq<CodePoints>, aliases: AliasMap, seqToFile: map<CodePoints, string>,
                                           name: CodePoints -> string, replace: bool)
    requires AllIn(order, aliases) && Distinct(order) && InjectiveFn(name)
    ensures forall j :: 0 <= j < |order| ==>
              (name(order[j]) in PlanOver(order, aliases, seqToFile, name, replace).toCreate <==> Planned(aliases, seqToFile, replace, order[j]))
    ensures forall j :: 0 <= j < |order| && Planned(aliases, seqToFile, replace, order[j]) ==>
              PlanOver(order, aliases, seqToFile, name, replace).toCreate[name(order[j])] == seqToFile[aliases[order[j]]]
    decreases |order|
  {
    if |order| > 0 {
      var n := |order| - 1;
      var init := order[..n];
      var als := order[n];
      AllInPrefix(order, aliases, n);
      DistinctPrefix(order, n);
      PlanOverCreates(init, aliases, seqToFile, name, replace);
      PlanOverKeys(init, aliases, seqToFile, name, replace);
      var p := PlanOver(init, aliases, seqToFile, name, replace);
      var q := PlanOver(order, aliases, seqToFile, name, replace);
      forall j | 0 <= j < n
        ensures order[j] == init[j] && name(init[j]) != name(als)
      {
        assert order[j] != als;
      }
      assert name(als) !in p.toCreate;
      if Planned(aliases, seqToFile, replace, als) {
        assert q.toCreate == p.toCreate[name(als) := seqToFile[aliases[als]]];
      } else {
        assert q.toCreate == p.toCreate;
      }
    }
  }

  /** Over an order of distinct aliases, every alias either gets a link or is reported. */
  lemma {:induction false} PlanOverCount(order: seq<CodePoints>, aliases: AliasMap, seqToFile: map<CodePoints, string>,
                                         name: CodePoints -> string, replace: bool)
    requires AllIn(order, aliases) && Distinct(order) && InjectiveFn(name)
    ensures |PlanOver(order, aliases, seqToFile, name, replace).toCreate| + |PlanOver(order, aliases, seqToFile, name, replace).out| == |order|
    decreases |order|
  {
    if |order| > 0 {
      var n := |order| - 1;
      var init := order[..n];
      var als := order[n];
      AllInPrefix(order, aliases, n);
      DistinctPrefix(order, n);
      PlanOverCount(init, aliases, seqToFile, name, replace);
      PlanOverKeys(init, aliases, seqToFile, name, replace);
      var p := PlanOver(init, aliases, seqToFile, name, replace);
      forall j | 0 <= j < n
        ensures name(init[j]) != name(als)
      {
        assert init[j] == order[j] != als;
      }
      assert name(als) !in p.toCreate;
      var q := PlanOver(order, aliases, seqToFile, name, replace);
      assert q == Visit(p, als, aliases, seqToFile, name, replace);
      if aliases[als] !in seqToFile || (als in seqToFile && !replace) {
        assert q.toCreate == p.toCreate && |q.out| == |p.out| + 1;
      } else {
        assert q.toCreate == p.toCreate[name(als) := seqToFile[aliases[als]]] && q.out == p.out;
      }
    }
  }

  /** Over any order, the files replaced are those of the planned aliases that have one. */
  lemma {:induction false} PlanOverReplaces(order: seq<CodePoints>, aliases: AliasMap, seqToFile: map<CodePoints, string>,
                                            name: CodePoints -> string, replace: bool)
    requires AllIn(order, aliases)
    ensures forall f :: f in PlanOver(order, aliases, seqToFile, name, replace).toReplace <==>
              exists j :: 0 <= j < |order| && Planned(aliases, seqToFile, replace, order[j]) &&
                          order[j] in seqToFile && f == seqToFile[order[j]]
    ensures !replace ==> PlanOver(order, aliases, seqToFile, name, replace).toReplace == []
    decreases |order|
  {
    if |order| > 0 {
      var init := order[..|order| - 1];
      var als := order[|order| - 1];
      assert AllIn(init, aliases);
      PlanOverReplaces(init, aliases, seqToFile, name, replace);
      var p := PlanOver(init, aliases, seqToFile, name, replace);
      var p' := PlanOver(order, aliases, seqToFile, name, replace);
      forall f
        ensures f in p'.toReplace <==>
                exists j :: 0 <= j < |order| && Planned(aliases, seqToFile, replace, order[j]) &&
                            order[j] in seqToFile && f == seqToFile[order[j]]
      {
        if f in p.toReplace {
          var j :| 0 <= j < |init| && Planned(aliases, seqToFile, replace, init[j]) &&
                   init[j] in seqToFile && f == seqToFile[init[j]];
          assert order[j] == init[j];
        }
        if exists j :: 0 <= j < |order| && Planned(aliases, seqToFile, replace, order[j]) &&
                       order[j] in seqToFile && f == seqToFile[order[j]] {
          var j :| 0 <= j < |order| && Planned(aliases, seqToFile, replace, order[j]) &&
                   order[j] in seqToFile && f == seqToFile[order[j]];
          if j < |init| {
            assert init[j] == order[j];
          }
        }
      }
    }
  }

  /**
   * The report of an alias that gets no link: `target ... does not exist`
   * when its target has no file, otherwise `alias ... exists`.
   */
  function Skipped(aliases: AliasMap, seqToFile: map<CodePoints, string>, als: CodePoints): Message
    requires als in aliases
  {
    if aliases[als] !in seqToFile then TargetMissing(aliases[als], als) else AliasExists(als)
  }

  /** Over any order, every alias that gets no link is reported, and every report is of such an alias. */
  lemma {:induction false} PlanOverReports(order: seq<CodePoints>, aliases: AliasMap, seqToFile: map<CodePoints, string>,
                                           name: CodePoints -> string, replace: bool)
    requires AllIn(order, aliases)
    ensures forall j :: 0 <= j < |order| && !Planned(aliases, seqToFile, replace, order[j]) ==>
              Skipped(aliases, seqToFile, order[j]) in PlanOver(order, aliases, seqToFile, name, replace).out
    ensures forall m :: m in PlanOver(order, aliases, seqToFile, name, replace).out ==>
              exists j :: 0 <= j < |order| && !Planned(aliases, seqToFile, replace, order[j]) &&
                          m == Skipped(aliases, seqToFile, order[j])
    decreases |order|
  {
    if |order| > 0 {
      var init := order[..|order| - 1];
      var als := order[|order| - 1];
      assert AllIn(init, aliases);
      PlanOverReports(init, aliases, seqToFile, name, replace);
      var p := PlanOver(init, aliases, seqToFile, name, replace);
      var q := PlanOver(order, aliases, seqToFile, name, replace);
      assert q == Visit(p, als, aliases, seqToFile, name, replace);
      if Planned(aliases, seqToFile, replace, als) {
        assert q.out == p.out;
      } else {
        assert q.out == p.out + [Skipped(aliases, seqToFile, als)];
      }
      assert forall j :: 0 <= j < |init| ==> order[j] == init[j];
      forall m | m in q.out
        ensures exists j :: 0 <= j < |order| && !Planned(aliases, seqToFile, replace, order[j]) &&
                            m == Skipped(aliases, seqToFile, order[j])
      {
        if m in p.out {
          var j :| 0 <= j < |init| && !Planned(aliases, seqToFile, replace, init[j]) &&
                   m == Skipped(aliases, seqToFile, init[j]);
          assert order[j] == init[j];
        } else {
          assert order[|order| - 1] == als;
        }
      }
    }
  }

  /** Over distinct aliases and a table of distinct files, no file is replaced twice. */
  lemma {:induction false} PlanOverReplacesOnce(order: seq<CodePoints>, aliases: AliasMap, seqToFile: map<CodePoints, string>,
                                                name: CodePoints -> string, replace: bool)
    requires AllIn(order, aliases) && Distinct(order) && InjectiveMap(seqToFile)
    ensures Distinct(PlanOver(order, aliases, seqToFile, name, replace).toReplace)
    decreases |order|
  {
    if |order| > 0 {
      var init := order[..|order| - 1];
      var als := order[|order| - 1];
      assert AllIn(init, aliases) && Distinct(init);
      PlanOverReplacesOnce(init, aliases, seqToFile, name, replace);
      PlanOverReplaces(init, aliases, seqToFile, name, replace);
      var p := PlanOver(init, aliases, seqToFile, name, replace);
      if Planned(aliases, seqToFile, replace, als) && als in seqToFile {
        forall j | 0 <= j < |init| && init[j] in seqToFile
          ensures seqToFile[init[j]] != seqToFile[als]
        {
          assert init[j] == order[j] != als;
        }
        assert seqToFile[als] !in p.toReplace;
      }
    }
  }

  /**
   * The plan for the aliases of the file: an alias gets a link exactly when
   * its target has a file and (unless replacing) it has none of its own; the
   * link points at the target's file.
   */
  lemma PlanCreates(aliases: AliasMap, seqToFile: map<CodePoints, string>, prefix: string, ext: string, replace: bool)
    ensures forall als :: als in aliases ==>
              (AliasName(prefix, als, ext) in PlanFor(aliases, seqToFile, prefix, ext, replace).toCreate <==> Planned(aliases, seqToFile, replace, als))
    ensures forall als :: als in aliases && Planned(aliases, seqToFile, replace, als) ==>
              PlanFor(aliases, seqToFile, prefix, ext, replace).toCreate[AliasName(prefix, als, ext)] == seqToFile[aliases[als]]
  {
    var order := AliasOrder(aliases);
    var name := Namer(prefix, ext);
    var p := PlanFor(aliases, seqToFile, prefix, ext, replace);
    NamerInjective(prefix, ext);
    PlanOverCreates(order, aliases, seqToFile, name, replace);
    forall als | als in aliases
      ensures (AliasName(prefix, als, ext) in p.toCreate <==> Planned(aliases, seqToFile, replace, als))
      ensures Planned(aliases, seqToFile, replace, als) ==>
                p.toCreate[AliasName(prefix, als, ext)] == seqToFile[aliases[als]]
    {
      assert als in order;
      var j :| 0 <= j < |order| && order[j] == als;
      assert name(order[j]) == AliasName(prefix, als, ext);
    }
  }

  /** Every link the plan creates is named after a planned alias. */
  lemma PlanLinksPlanned(aliases: AliasMap, seqToFile: map<CodePoints, string>, prefix: string, ext: string, replace: bool)
    ensures forall k :: k in PlanFor(aliases, seqToFile, prefix, ext, replace).toCreate ==>
              exists als :: als in aliases && Planned(aliases, seqToFile, replace, als) && k == AliasName(prefix, als, ext)
  {
    var order := AliasOrder(aliases);
    var name := Namer(prefix, ext);
    var p := PlanFor(aliases, seqToFile, prefix, ext, replace);
    PlanOverKeys(order, aliases, seqToFile, name, replace);
    forall k | k in p.toCreate
      ensures exists als :: als in aliases && Planned(aliases, seqToFile, replace, als) && k == AliasName(prefix, als, ext)
    {
      var j :| 0 <= j < |order| && Planned(aliases, seqToFile, replace, order[j]) && k == name(order[j]);
      assert order[j] in aliases && k == AliasName(prefix, order[j], ext);
    }
  }

  /**
   * Each alias that gets no link is reported: `TargetMissing` when its target
   * has no file, `AliasExists` when it has a file of its own and existing
   * files are kept.
   */
  lemma PlanReports(aliases: AliasMap, seqToFile: map<CodePoints, string>, prefix: string, ext: string, replace: bool)
    ensures forall als :: als in aliases && aliases[als] !in seqToFile ==>
              TargetMissing(aliases[als], als) in PlanFor(aliases, seqToFile, prefix, ext, replace).out
    ensures forall als :: als in aliases && aliases[als] in seqToFile && als in seqToFile && !replace ==>
              AliasExists(als) in PlanFor(aliases, seqToFile, prefix, ext, replace).out
  {
    var order := AliasOrder(aliases);
    var p := PlanFor(aliases, seqToFile, prefix, ext, replace);
    PlanOverReports(order, aliases, seqToFile, Namer(prefix, ext), replace);
    forall als | als in aliases && !Planned(aliases, seqToFile, replace, als)
      ensures Skipped(aliases, seqToFile, als) in p.out
    {
      assert als in order;
      var j :| 0 <= j < |order| && order[j] == als;
    }
    assert forall als :: als in aliases && aliases[als] !in seqToFile ==>
             Skipped(aliases, seqToFile, als) == TargetMissing(aliases[als], als);
    assert forall als :: als in aliases && aliases[als] in seqToFile && als in seqToFile && !replace ==>
             Skipped(aliases, seqToFile, als) == AliasExists(als);
  }

  /** Every report of the plan is that of an alias that gets no link. */
  lemma PlanReportsSkipped(aliases: AliasMap, seqToFile: map<CodePoints, string>, prefix: string, ext: string, replace: bool)
    ensures forall m :: m in PlanFor(aliases, seqToFile, prefix, ext, replace).out ==>
              exists als :: als in aliases && !Planned(aliases, seqToFile, replace, als) &&
                            m == Skipped(aliases, seqToFile, als)
  {
    var order := AliasOrder(aliases);
    var p := PlanFor(aliases, seqToFile, prefix, ext, replace);
    PlanOverReports(order, aliases, seqToFile, Namer(prefix, ext), replace);
    forall m | m in p.out
      ensures exists als :: als in aliases && !Planned(aliases, seqToFile, replace, als) &&
                            m == Skipped(aliases, seqToFile, als)
    {
      var j :| 0 <= j < |order| && !Planned(aliases, seqToFile, replace, order[j]) &&
               m == Skipped(aliases, seqToFile, order[j]);
      assert order[j] in aliases;
    }
  }

  /** As many aliases get a link or a report as there are aliases. */
  lemma PlanAccounts(aliases: AliasMap, seqToFile: map<CodePoints, string>, prefix: string, ext: string, replace: bool)
    ensures |PlanFor(aliases, seqToFile, prefix, ext, replace).toCreate| + |PlanFor(aliases, seqToFile, prefix, ext, replace).out| == |aliases|
  {
    var order := AliasOrder(aliases);
    NamerInjective(prefix, ext);
    PlanOverCount(order, aliases, seqToFile, Namer(prefix, ext), replace);
    DistinctCard(order, aliases.Keys);
  }

  /**
   * The files the plan replaces are exactly the existing files of aliases that
   * get links, each once; without `replace` there are none.
   */
  lemma PlanReplaces(aliases: AliasMap, seqToFile: map<CodePoints, string>, prefix: string, ext: string, replace: bool)
    ensures forall f :: f in PlanFor(aliases, seqToFile, prefix, ext, replace).toReplace <==>
              exists als :: als in aliases && Planned(aliases, seqToFile, replace, als) &&
                            als in seqToFile && f == seqToFile[als]
    ensures !replace ==> PlanFor(aliases, seqToFile, prefix, ext, replace).toReplace == []
    ensures InjectiveMap(seqToFile) ==> Distinct(PlanFor(aliases, seqToFile, prefix, ext, replace).toReplace)
  {
    var order := AliasOrder(aliases);
    var name := Namer(prefix, ext);
    var p := PlanFor(aliases, seqToFile, prefix, ext, replace);
    PlanOverReplaces(order, aliases, seqToFile, name, replace);
    if InjectiveMap(seqToFile) {
      PlanOverReplacesOnce(order, aliases, seqToFile, name, replace);
    }
    forall f
      ensures f in p.toReplace <==>
              exists als :: als in aliases && Planned(aliases, seqToFile, replace, als) &&
                            als in seqToFile && f == seqToFile[als]
    {
      if f in p.toReplace {
        var j :| 0 <= j < |order| && Planned(aliases, seqToFile, replace, order[j]) &&
                 order[j] in seqToFile && f == seqToFile[order[j]];
        assert order[j] in aliases;
      }
      if exists als :: als in aliases && Planned(aliases, seqToFile, replace, als) &&
                       als in seqToFile && f == seqToFile[als] {
        var als :| als in aliases && Planned(aliases, seqToFile, replace, als) &&
                   als in seqToFile && f == seqToFile[als];
        assert als in order;
        var j :| 0 <= j < |order| && order[j] == als;
      }
    }
  }

  /** Without `replace`, no alias that already has a file gets a link, and nothing is replaced. */
  lemma NoReplaceKeepsFiles(aliases: AliasMap, seqToFile: map<CodePoints, string>, prefix: string, ext: string)
    ensures PlanFor(aliases, seqToFile, prefix, ext, false).toReplace == [] &&
            forall als :: als in aliases && AliasName(prefix, als, ext) in PlanFor(aliases, seqToFile, prefix, ext, false).toCreate ==> als !in seqToFile
  {
    PlanCreates(aliases, seqToFile, prefix, ext, false);
    PlanReplaces(aliases, seqToFile, prefix, ext, false);
  }

  /** A sequence of distinct elements has as many elements as the set it lists. */
  lemma {:induction false} DistinctCard<T>(r: seq<T>, s: set<T>)
    requires Distinct(r)
    requires forall x :: x in r <==> x in s
    ensures |r| == |s|
    decreases |r|
  {
    if |r| > 0 {
      var init := r[..|r| - 1];
      var last := r[|r| - 1];
      forall x
        ensures x in init <==> x in s - {last}
      {
        if x in init {
          var j :| 0 <= j < |init| && init[j] == x;
          assert r[j] == x;
        }
        if x in s - {last} {
          var j :| 0 <= j < |r| && r[j] == x;
          assert init[j] == x;
        }
      }
      DistinctCard(init, s - {last});
    } else {
      assert s == {};
    }
  }

  lemma AllInPrefix(order: seq<CodePoints>, aliases: AliasMap, i: nat)
    requires AllIn(order, aliases) && i <= |order|
    ensures AllIn(order[..i], aliases)
  {
    forall j | 0 <= j < i ensures order[..i][j] in aliases {
      assert order[..i][j] == order[j];
    }
  }

  /** The plan after one more alias of `order` is that alias visited after the others. */
  lemma PlanOverStep(order: seq<CodePoints>, aliases: AliasMap, seqToFile: map<CodePoints, string>,
                     name: CodePoints -> string, replace: bool, i: nat)
    requires AllIn(order, aliases) && i < |order|
    ensures AllIn(order[..i], aliases) && AllIn(order[..i + 1], aliases)
    ensures PlanOver(order[..i + 1], aliases, seqToFile, name, replace) ==
            Visit(PlanOver(order[..i], aliases, seqToFile, name, replace), order[i], aliases, seqToFile, name, replace)
  {
    AllInPrefix(order, aliases, i);
    AllInPrefix(order, aliases, i + 1);
    assert order[..i + 1][..i] == order[..i];
  }

  /**
   * The loop of `add_aliases` over `sorted(aliases.items())`: it builds
   * `aliases_to_create`, `aliases_to_replace` and the reports of skipped
   * aliases as `PlanFor` describes.
   */
  method PlanAliases(aliases: AliasMap, seqToFile: map<CodePoints, string>, prefix: string, ext: string, replace: bool)
    returns (toCreate: map<string, string>, toReplace: seq<string>, out: seq<Message>)
    ensures Plan(toCreate, toReplace, out) == PlanFor(aliases, seqToFile, prefix, ext, replace)
  {
    var order := SortedBy(aliases.Keys, Id);
    ghost var name := Namer(prefix, ext);
    assert order == AliasOrder(aliases);
    toCreate, toReplace, out := map[], [], [];
    var i := 0;
    AllInPrefix(order, aliases, 0);
    while i < |order|
      invariant 0 <= i <= |order|
      invariant AllIn(order[..i], aliases)
      invariant Plan(toCreate, toReplace, out) == PlanOver(order[..i], aliases, seqToFile, name, replace)
    {
      PlanOverStep(order, aliases, seqToFile, name, replace, i);
      var als := order[i];
      var trg := aliases[als];
      if trg !in seqToFile {
        out := out + [TargetMissing(trg, als)];
        i := i + 1;
        continue;
      }
      if als in seqToFile {
        if replace {
          toReplace := toReplace + [seqToFile[als]];
        } else {
          out := out + [AliasExists(als)];
          i := i + 1;
          continue;
        }
      }
      var targetFile := seqToFile[trg];
      var aliasName := AliasName(prefix, als, ext);
      assert aliasName == name(als);
      toCreate := toCreate[aliasName := targetFile];
      i := i + 1;
    }
    assert order[..i] == order;
  }

  // ---------------------------------------------------------------------------
  // Carrying out the plan

  /** How many of `acts` are carried out before the first one the file system refuses. */
  function Succeeding(acts: seq<Action>, failing: set<Action>): (n: nat)
    ensures n <= |acts|
    decreases |acts|
  {
    if |acts| == 0 || acts[0] in failing then 0 else 1 + Succeeding(acts[1..], failing)
  }

  /** The actions counted are all accepted, and the next one, if any, is refused. */
  lemma {:induction false} SucceedingStops(acts: seq<Action>, failing: set<Action>)
    ensures forall j :: 0 <= j < Succeeding(acts, failing) ==> acts[j] !in failing
    ensures Succeeding(acts, failing) < |acts| ==> acts[Succeeding(acts, failing)] in failing
    decreases |acts|
  {
    if |acts| > 0 && acts[0] !in failing {
      SucceedingStops(acts[1..], failing);
      assert forall j :: 1 <= j < |acts| ==> acts[j] == acts[1..][j - 1];
    }
  }

  /** The count of actions carried out is fixed by the first refused one. */
  lemma {:induction false} SucceedingAt(acts: seq<Action>, failing: set<Action>, i: nat)
    requires i <= |acts|
    requires forall j :: 0 <= j < i ==> acts[j] !in failing
    requires i < |acts| ==> acts[i] in failing
    ensures Succeeding(acts, failing) == i
    decreases |acts|
  {
    if |acts| > 0 && acts[0] !in failing {
      assert forall j :: 1 <= j < |acts| ==> acts[j] == acts[1..][j - 1];
      SucceedingAt(acts[1..], failing, i - 1);
    }
  }

  /** Actions carried out one list after another stop at the first refusal in either. */
  lemma SucceedingAppend(a: seq<Action>, b: seq<Action>, failing: set<Action>)
    ensures Succeeding(a + b, failing) ==
            if Succeeding(a, failing) < |a| then Succeeding(a, failing) else |a| + Succeeding(b, failing)
  {
    var n := Succeeding(a, failing);
    SucceedingStops(a, failing);
    if n < |a| {
      assert forall j :: 0 <= j <= n ==> (a + b)[j] == a[j];
      SucceedingAt(a + b, failing, n);
    } else {
      var m := Succeeding(b, failing);
      SucceedingStops(b, failing);
      assert forall j :: 0 <= j < |a| ==> (a + b)[j] == a[j];
      assert forall j :: 0 <= j < |b| ==> (a + b)[|a| + j] == b[j];
      SucceedingAt(a + b, failing, |a| + m);
    }
  }

  lemma PrefixOfAppend<T>(a: seq<T>, b: seq<T>, m: nat)
    requires m <= |b|
    ensures (a + b)[..|a| + m] == a + b[..m]
  {
  }

  /** The entries of a list, as a set. */
  function Elements(s: seq<string>): set<string> {
    set f | f in s
  }

  /** `sorted(aliases_to_replace)`; the list holds no file twice. */
  ghost function RemovalOrder(toReplace: seq<string>): seq<string> {
    CodesInjectiveOn(Elements(toReplace));
    SortedList(Elements(toReplace), Codes)
  }

  /** The keys of `sorted(aliases_to_create.items())`. */
  ghost function LinkOrder(toCreate: map<string, string>): (keys: seq<string>)
    ensures forall j :: 0 <= j < |keys| ==> keys[j] in toCreate
  {
    CodesInjectiveOn(toCreate.Keys);
    var keys := SortedList(toCreate.Keys, Codes);
    assert forall j :: 0 <= j < |keys| ==> keys[j] in keys;
    keys
  }

  /** `os.remove` of each name in turn. */
  function Removals(names: seq<string>): seq<Action> {
    seq(|names|, j requires 0 <= j < |names| => Remove(names[j]))
  }

  /** `os.symlink(v, k)` for each key `k` in turn, `v` its file. */
  function Links(keys: seq<string>, toCreate: map<string, string>): seq<Action>
    requires forall j :: 0 <= j < |keys| ==> keys[j] in toCreate
  {
    seq(|keys|, j requires 0 <= j < |keys| => Symlink(toCreate[keys[j]], keys[j]))
  }

  /** The lines a dry run prints for each key in turn. */
  function Previews(keys: seq<string>, toCreate: map<string, string>, toReplace: seq<string>): seq<Message>
    requires forall j :: 0 <= j < |keys| ==> keys[j] in toCreate
  {
    seq(|keys|, j requires 0 <= j < |keys| => Preview(keys[j] in toReplace, keys[j], toCreate[keys[j]]))
  }

  /** The removals a plan asks for: the replaced files in sorted order, unless previewing. */
  ghost function PlannedRemovals(toReplace: seq<string>, replace: bool, dryRun: bool): seq<Action> {
    if replace && !dryRun then Removals(RemovalOrder(toReplace)) else []
  }

  /** The calls into the file system a plan asks for, in the order they are made. */
  ghost function Actions(toCreate: map<string, string>, toReplace: seq<string>, replace: bool, dryRun: bool): seq<Action> {
    PlannedRemovals(toReplace, replace, dryRun) + (if dryRun then [] else Links(LinkOrder(toCreate), toCreate))
  }

  /**
   * Carrying out a plan: the actions are made in order until the file system
   * refuses one; a refused removal raises at once, a refused link is
   * reported and raises.
   */
  ghost function Execution(toCreate: map<string, string>, toReplace: seq<string>,
                           replace: bool, dryRun: bool, failing: set<Action>): Run
  {
    var rem := PlannedRemovals(toReplace, replace, dryRun);
    var r := Succeeding(rem, failing);
    if r < |rem| then
      Run(rem[..r], [], Raised(RemoveFailed(rem[r].file)))
    else
      Linking(rem, LinkOrder(toCreate), toCreate, toReplace, replace, dryRun, failing)
  }

  /** The rest of a run once the removals `rem` are done, linking `keys` in that order. */
  ghost function Linking(rem: seq<Action>, keys: seq<string>, toCreate: map<string, string>, toReplace: seq<string>,
                         replace: bool, dryRun: bool, failing: set<Action>): Run
    requires forall j :: 0 <= j < |keys| ==> keys[j] in toCreate
  {
    var replacing := if replace then [Replacing(|toReplace|)] else [];
    if dryRun then
      Run([], replacing + Previews(keys, toCreate, toReplace) + [Created(|toCreate|)], Returned)
    else
      var lnk := Links(keys, toCreate);
      var s := Succeeding(lnk, failing);
      if s < |lnk| then
        Run(rem + lnk[..s], replacing + [LinkFailed(keys[s], toCreate[keys[s]])],
            Raised(SymlinkFailed(toCreate[keys[s]], keys[s])))
      else
        Run(rem + lnk, replacing + [Created(|toCreate|)], Returned)
  }

  /** The calls a run makes are the planned ones up to the first the file system refuses. */
  lemma ExecutionLog(toCreate: map<string, string>, toReplace: seq<string>,
                     replace: bool, dryRun: bool, failing: set<Action>)
    ensures Execution(toCreate, toReplace, replace, dryRun, failing).log ==
            Actions(toCreate, toReplace, replace, dryRun)[..Succeeding(Actions(toCreate, toReplace, replace, dryRun), failing)]
  {
    if dryRun {
      assert Actions(toCreate, toReplace, replace, dryRun) == [];
    } else if Succeeding(PlannedRemovals(toReplace, replace, dryRun), failing) < |PlannedRemovals(toReplace, replace, dryRun)| {
      LogWhenRemovalFails(toCreate, toReplace, replace, failing);
    } else {
      LogAfterRemovals(toCreate, toReplace, replace, failing);
    }
  }

  lemma LogWhenRemovalFails(toCreate: map<string, string>, toReplace: seq<string>, replace: bool, failing: set<Action>)
    requires Succeeding(PlannedRemovals(toReplace, replace, false), failing) < |PlannedRemovals(toReplace, replace, false)|
    ensures Execution(toCreate, toReplace, replace, false, failing).log ==
            Actions(toCreate, toReplace, replace, false)[..Succeeding(Actions(toCreate, toReplace, replace, false), failing)]
  {
    var rem := PlannedRemovals(toReplace, replace, false);
    var lnk := Links(LinkOrder(toCreate), toCreate);
    assert Actions(toCreate, toReplace, replace, false) == rem + lnk;
    SucceedingAppend(rem, lnk, failing);
    var r := Succeeding(rem, failing);
    assert (rem + lnk)[..r] == rem[..r];
  }

  lemma LogAfterRemovals(toCreate: map<string, string>, toReplace: seq<string>, replace: bool, failing: set<Action>)
    requires Succeeding(PlannedRemovals(toReplace, replace, false), failing) == |PlannedRemovals(toReplace, replace, false)|
    ensures Execution(toCreate, toReplace, replace, false, failing).log ==
            Actions(toCreate, toReplace, replace, false)[..Succeeding(Actions(toCreate, toReplace, replace, false), failing)]
  {
    var rem := PlannedRemovals(toReplace, replace, false);
    var lnk := Links(LinkOrder(toCreate), toCreate);
    assert Actions(toCreate, toReplace, replace, false) == rem + lnk;
    SucceedingAppend(rem, lnk, failing);
    AfterRemovals(toCreate, toReplace, replace, false, failing);
    PrefixOfAppend(rem, lnk, Succeeding(lnk, failing));
  }

  /**
   * The removal loop, `os.remove` of each name in order: the log is the
   * removals carried out before the first refused one, if any.
   */
  method RemoveFiles(names: seq<string>, failing: set<Action>) returns (log: seq<Action>, ok: bool)
    ensures log == Removals(names)[..Succeeding(Removals(names), failing)]
    ensures ok <==> |log| == |names|
  {
    ghost var acts := Removals(names);
    log := [];
    var i := 0;
    while i < |names|
      invariant 0 <= i <= |names|
      invariant log == acts[..i]
      invariant forall j :: 0 <= j < i ==> acts[j] !in failing
    {
      var action := Remove(names[i]);
      if action in failing {
        SucceedingAt(acts, failing, i);
        return log, false;
      }
      log := log + [action];
      i := i + 1;
    }
    SucceedingAt(acts, failing, i);
    ok := true;
  }

  /**
   * The link loop over the sorted keys: a dry run prints each link;
   * otherwise each `os.symlink` is made in order, and the first refused one
   * is reported and ends the loop.
   */
  method CreateLinks(keys: seq<string>, toCreate: map<string, string>, toReplace: seq<string>,
                     dryRun: bool, failing: set<Action>)
    returns (log: seq<Action>, out: seq<Message>, ok: bool)
    requires forall j :: 0 <= j < |keys| ==> keys[j] in toCreate
    ensures dryRun ==> log == [] && ok && out == Previews(keys, toCreate, toReplace)
    ensures !dryRun ==> log == Links(keys, toCreate)[..Succeeding(Links(keys, toCreate), failing)]
    ensures !dryRun ==> (ok <==> |log| == |keys|)
    ensures !dryRun && ok ==> out == []
    ensures !dryRun && !ok ==> out == [LinkFailed(keys[|log|], toCreate[keys[|log|]])]
  {
    ghost var acts := Links(keys, toCreate);
    log, out := [], [];
    var i := 0;
    while i < |keys|
      invariant 0 <= i <= |keys|
      invariant dryRun ==> log == [] && out == Previews(keys, toCreate, toReplace)[..i]
      invariant !dryRun ==> log == acts[..i] && out == []
      invariant !dryRun ==> forall j :: 0 <= j < i ==> acts[j] !in failing
    {
      var k := keys[i];
      var v := toCreate[k];
      if dryRun {
        out := out + [Preview(k in toReplace, k, v)];
      } else {
        if Symlink(v, k) in failing {
          out := out + [LinkFailed(k, v)];
          SucceedingAt(acts, failing, i);
          return log, out, false;
        }
        log := log + [Symlink(v, k)];
      }
      i := i + 1;
    }
    if !dryRun {
      SucceedingAt(acts, failing, i);
    }
    assert Previews(keys, toCreate, toReplace)[..i] == Previews(keys, toCreate, toReplace);
    ok := true;
  }

  /**
   * The end of `add_aliases`: the removals when replacing (skipped in a dry
   * run), then the links.
   */
  method Execute(toCreate: map<string, string>, toReplace: seq<string>, replace: bool, dryRun: bool, failing: set<Action>)
    returns (log: seq<Action>, out: seq<Message>, status: Status)
    ensures Run(log, out, status) == Execution(toCreate, toReplace, replace, dryRun, failing)
  {
    var removed: seq<Action> := [];
    if replace && !dryRun {
      CodesInjectiveOn(Elements(toReplace));
      var order := SortedBy(Elements(toReplace), Codes);
      var ok;
      removed, ok := RemoveFiles(order, failing);
      assert Removals(order) == PlannedRemovals(toReplace, replace, dryRun);
      if !ok {
        assert Removals(order)[|removed|].file == order[|removed|];
        return removed, [], Raised(RemoveFailed(order[|removed|]));
      }
    }
    assert removed == PlannedRemovals(toReplace, replace, dryRun);
    AfterRemovals(toCreate, toReplace, replace, dryRun, failing);
    CodesInjectiveOn(toCreate.Keys);
    var keys := SortedBy(toCreate.Keys, Codes);
    assert keys == LinkOrder(toCreate);
    log, out, status := Link(removed, keys, toCreate, toReplace, replace, dryRun, failing);
  }

  lemma AfterRemovals(toCreate: map<string, string>, toReplace: seq<string>, replace: bool, dryRun: bool, failing: set<Action>)
    requires Succeeding(PlannedRemovals(toReplace, replace, dryRun), failing) == |PlannedRemovals(toReplace, replace, dryRun)|
    ensures Execution(toCreate, toReplace, replace, dryRun, failing) ==
            Linking(PlannedRemovals(toReplace, replace, dryRun), LinkOrder(toCreate), toCreate, toReplace, replace, dryRun, failing)
  {
  }

  /**
   * After the removals `rem`: the count of replaced files when replacing,
   * then the links in sorted order (only printed in a dry run), then the
   * count of links.
   */
  method Link(rem: seq<Action>, keys: seq<string>, toCreate: map<string, string>, toReplace: seq<string>,
              replace: bool, dryRun: bool, failing: set<Action>)
    returns (log: seq<Action>, out: seq<Message>, status: Status)
    requires forall j :: 0 <= j < |keys| ==> keys[j] in toCreate
    ensures Run(log, out, status) == Linking(rem, keys, toCreate, toReplace, replace, dryRun, failing)
  {
    var replacing := if replace then [Replacing(|toReplace|)] else [];
    var linked, linkOut, ok := CreateLinks(keys, toCreate, toReplace, dryRun, failing);
    if dryRun {
      return [], replacing + linkOut + [Created(|toCreate|)], Returned;
    }
    if !ok {
      var k := keys[|linked|];
      return rem + linked, replacing + [LinkFailed(k, toCreate[k])], Raised(SymlinkFailed(toCreate[k], k));
    }
    return rem + linked, replacing + [Created(|toCreate|)], Returned;
  }

  // ---------------------------------------------------------------------------
  // The whole run

  /**
   * What the run sees of the outside world: the directory's path, whether
   * it is a directory, its entries, the lines of the alias file, and which
   * file system calls would be refused. Entries and calls name files
   * relative to the directory.
   */
  datatype World = World(filedir: string, isDir: bool, listing: seq<string>, aliasFile: seq<string>, failing: set<Action>)

  lemma GlobbedMatch(listing: seq<string>, prefix: string, ext: string)
    ensures AllMatch(Globbed(listing, prefix, ext), prefix, ext)
  {
    var names := Globbed(listing, prefix, ext);
    forall j | 0 <= j < |names| ensures Matches(names[j], prefix, ext) {
      assert names[j] in names;
    }
  }

  /**
   * A run of `add_aliases(filedir, prefix, ext, replace, dry_run)` in the
   * world `w`: it stops at once if the target is not a directory, raises if
   * a file name or the alias file is bad, and otherwise carries out the plan
   * for the aliases read.
   */
  ghost function Outcome(w: World, prefix: string, ext: string, replace: bool, dryRun: bool): Run {
    if !w.isDir then Run([], [NotADirectory(w.filedir)], Returned)
    else
      match Scan(w.listing, prefix, ext)
      case Failure(name) => Run([], [], Raised(BadFileName(name)))
      case Success(seqToFile) =>
        var ks := Kinds(w.aliasFile);
        match Load(w.aliasFile)
        case Failure(e) =>
          FirstFailingLine(ks);
          Run([], Reports(ks[..e.index]), Raised(BadAliasFile(e)))
        case Success(aliases) =>
          var p := PlanFor(aliases, seqToFile, prefix, ext, replace);
          var x := Execution(p.toCreate, p.toReplace, replace, dryRun, w.failing);
          Run(x.log, Reports(ks) + p.out + x.out, x.status)
  }

  /** `add_aliases`, step by step; it does what `Outcome` describes. */
  method AddAliases(w: World, prefix: string, ext: string, replace: bool, dryRun: bool)
    returns (log: seq<Action>, out: seq<Message>, status: Status)
    ensures Run(log, out, status) == Outcome(w, prefix, ext, replace, dryRun)
  {
    if !w.isDir {
      return [], [NotADirectory(w.filedir)], Returned;
    }
    var names := Globbed(w.listing, prefix, ext);
    GlobbedMatch(w.listing, prefix, ext);
    var scan := SeqToFile(names, prefix, ext);
    if scan.Failure? {
      return [], [], Raised(BadFileName(scan.error));
    }
    var seqToFile := scan.value;
    var loaded, reports := ReadEmojiAliases(w.aliasFile);
    if loaded.Failure? {
      return [], reports, Raised(BadAliasFile(loaded.error));
    }
    var aliases := loaded.value;
    var toCreate, toReplace, skipped := PlanAliases(aliases, seqToFile, prefix, ext, replace);
    var done, said;
    done, said, status := Execute(toCreate, toReplace, replace, dryRun, w.failing);
    log, out := done, reports + skipped + said;
  }
}
