/**
 * What a run of `add_aliases` promises: the file system calls it makes are
 * the planned ones, removals before links and each kind in sorted order; a
 * dry run or a run that raises before planning calls nothing; without
 * `replace` nothing is removed; a completed run makes every planned link;
 * a refused call ends the run and nothing after it is attempted.
 */
module RunProperties {
  import opened Wrappers
  import opened Order
  import opened Codec
  import opened Diagnostics
  import opened AliasFile
  import opened Planner

  // ---------------------------------------------------------------------------
  // The planned calls

  /** Removals come before links, and each kind is in strictly increasing order of name. */
  ghost predicate InOrder(acts: seq<Action>) {
    (forall i, j :: 0 <= i < j < |acts| && acts[j].Remove? ==>
       acts[i].Remove? && StrLess(acts[i].file, acts[j].file)) &&
    (forall i, j :: 0 <= i < j < |acts| && acts[i].Symlink? ==>
       acts[j].Symlink? && StrLess(acts[i].link, acts[j].link))
  }

  /** The planned calls are in order. */
  lemma ActionsOrdered(toCreate: map<string, string>, toReplace: seq<string>, replace: bool, dryRun: bool,
                       acts: seq<Action>)
    requires acts == Actions(toCreate, toReplace, replace, dryRun)
    ensures InOrder(acts)
  {
    var rem := PlannedRemovals(toReplace, replace, dryRun);
    var lnk := if dryRun then [] else Links(LinkOrder(toCreate), toCreate);
    assert acts == rem + lnk;
    RemovalsSorted(toReplace, replace, dryRun, rem);
    LinksSorted(toCreate, dryRun, lnk);
    RemovalsFirst(rem, lnk);
    LinksLast(rem, lnk);
  }

  /** The calls made before some point are in order too. */
  lemma InOrderPrefix(acts: seq<Action>, n: nat)
    requires InOrder(acts) && n <= |acts|
    ensures InOrder(acts[..n])
  {
    assert forall i :: 0 <= i < n ==> acts[..n][i] == acts[i];
  }

  /**
   * The calls made before the `n`-th: before a removal, only removals of
   * smaller names; before a link, only links of smaller names.
   */
  lemma InOrderBefore(acts: seq<Action>, n: nat)
    requires InOrder(acts) && n < |acts|
    ensures acts[n].Remove? ==> forall a :: a in acts[..n] ==> a.Remove? && StrLess(a.file, acts[n].file)
    ensures acts[n].Symlink? ==> forall a :: a in acts[..n] && a.Symlink? ==> StrLess(a.link, acts[n].link)
  {
    forall a | a in acts[..n] ensures exists i :: 0 <= i < n && acts[i] == a {
      var i :| 0 <= i < n && acts[..n][i] == a;
    }
  }

  lemma RemovalsFirst(rem: seq<Action>, lnk: seq<Action>)
    requires forall i :: 0 <= i < |rem| ==> rem[i].Remove?
    requires forall i, j :: 0 <= i < j < |rem| ==> StrLess(rem[i].file, rem[j].file)
    requires forall i :: 0 <= i < |lnk| ==> lnk[i].Symlink?
    ensures forall i, j :: 0 <= i < j < |rem + lnk| && (rem + lnk)[j].Remove? ==>
              (rem + lnk)[i].Remove? && StrLess((rem + lnk)[i].file, (rem + lnk)[j].file)
  {
    forall i, j | 0 <= i < j < |rem + lnk| && (rem + lnk)[j].Remove?
      ensures (rem + lnk)[i].Remove? && StrLess((rem + lnk)[i].file, (rem + lnk)[j].file)
    {
      AppendAt(rem, lnk, i);
      AppendAt(rem, lnk, j);
    }
  }

  lemma LinksLast(rem: seq<Action>, lnk: seq<Action>)
    requires forall i :: 0 <= i < |rem| ==> rem[i].Remove?
    requires forall i :: 0 <= i < |lnk| ==> lnk[i].Symlink?
    requires forall i, j :: 0 <= i < j < |lnk| ==> StrLess(lnk[i].link, lnk[j].link)
    ensures forall i, j :: 0 <= i < j < |rem + lnk| && (rem + lnk)[i].Symlink? ==>
              (rem + lnk)[j].Symlink? && StrLess((rem + lnk)[i].link, (rem + lnk)[j].link)
  {
    forall i, j | 0 <= i < j < |rem + lnk| && (rem + lnk)[i].Symlink?
      ensures (rem + lnk)[j].Symlink? && StrLess((rem + lnk)[i].link, (rem + lnk)[j].link)
    {
      AppendAt(rem, lnk, i);
      AppendAt(rem, lnk, j);
    }
  }

  lemma AppendAt<T>(a: seq<T>, b: seq<T>, i: nat)
    requires i < |a + b|
    ensures (a + b)[i] == if i < |a| then a[i] else b[i - |a|]
  {
  }

  lemma RemovalsSorted(toReplace: seq<string>, replace: bool, dryRun: bool, rem: seq<Action>)
    requires rem == PlannedRemovals(toReplace, replace, dryRun)
    ensures forall i :: 0 <= i < |rem| ==> rem[i].Remove?
    ensures forall i, j :: 0 <= i < j < |rem| ==> StrLess(rem[i].file, rem[j].file)
  {
    if replace && !dryRun {
      var order := RemovalOrder(toReplace);
      assert Sorted(order, Codes);
      assert forall i :: 0 <= i < |rem| ==> rem[i] == Remove(order[i]);
    }
  }

  lemma LinksSorted(toCreate: map<string, string>, dryRun: bool, lnk: seq<Action>)
    requires lnk == if dryRun then [] else Links(LinkOrder(toCreate), toCreate)
    ensures forall i :: 0 <= i < |lnk| ==> lnk[i].Symlink?
    ensures forall i, j :: 0 <= i < j < |lnk| ==> StrLess(lnk[i].link, lnk[j].link)
  {
    if !dryRun {
      var keys := LinkOrder(toCreate);
      CodesInjectiveOn(toCreate.Keys);
      assert Sorted(keys, Codes);
      assert forall i :: 0 <= i < |lnk| ==> lnk[i] == Symlink(toCreate[keys[i]], keys[i]);
    }
  }

  /**
   * The planned calls: a removal of each file being replaced, only when
   * replacing for real, and a link for each planned alias, only when not
   * previewing; nothing else.
   */
  lemma ActionsPlanned(toCreate: map<string, string>, toReplace: seq<string>, replace: bool, dryRun: bool,
                       acts: seq<Action>)
    requires acts == Actions(toCreate, toReplace, replace, dryRun)
    ensures forall a :: a in acts && a.Remove? ==> replace && !dryRun && a.file in toReplace
    ensures forall a :: a in acts && a.Symlink? ==> !dryRun && a.link in toCreate && a.target == toCreate[a.link]
    ensures replace && !dryRun ==> forall f :: f in toReplace ==> Remove(f) in acts
    ensures !dryRun ==> forall k :: k in toCreate ==> Symlink(toCreate[k], k) in acts
    ensures dryRun ==> acts == []
  {
    var rem := PlannedRemovals(toReplace, replace, dryRun);
    var lnk := if dryRun then [] else Links(LinkOrder(toCreate), toCreate);
    assert acts == rem + lnk;
    RemovalsListed(toReplace, replace, dryRun, rem);
    LinksListed(toCreate, dryRun, lnk);
  }

  lemma RemovalsListed(toReplace: seq<string>, replace: bool, dryRun: bool, rem: seq<Action>)
    requires rem == PlannedRemovals(toReplace, replace, dryRun)
    ensures forall a :: a in rem ==> a.Remove? && replace && !dryRun && a.file in toReplace
    ensures replace && !dryRun ==> forall f :: f in toReplace ==> Remove(f) in rem
  {
    if replace && !dryRun {
      var order := RemovalOrder(toReplace);
      assert forall x :: x in order <==> x in Elements(toReplace);
      assert forall i :: 0 <= i < |rem| ==> rem[i] == Remove(order[i]);
      forall a | a in rem ensures a.Remove? && a.file in toReplace {
        var i :| 0 <= i < |rem| && rem[i] == a;
        assert order[i] in order;
      }
      forall f | f in toReplace ensures Remove(f) in rem {
        assert f in Elements(toReplace);
        var i :| 0 <= i < |order| && order[i] == f;
        assert rem[i] == Remove(f);
      }
    }
  }

  lemma LinksListed(toCreate: map<string, string>, dryRun: bool, lnk: seq<Action>)
    requires lnk == if dryRun then [] else Links(LinkOrder(toCreate), toCreate)
    ensures forall a :: a in lnk ==> a.Symlink? && a.link in toCreate && a.target == toCreate[a.link]
    ensures !dryRun ==> forall k :: k in toCreate ==> Symlink(toCreate[k], k) in lnk
  {
    if !dryRun {
      var keys := LinkOrder(toCreate);
      CodesInjectiveOn(toCreate.Keys);
      assert forall x :: x in keys <==> x in toCreate.Keys;
      assert forall i :: 0 <= i < |lnk| ==> lnk[i] == Symlink(toCreate[keys[i]], keys[i]);
      forall k | k in toCreate ensures Symlink(toCreate[k], k) in lnk {
        var i :| 0 <= i < |keys| && keys[i] == k;
        assert lnk[i] == Symlink(toCreate[k], k);
      }
    }
  }

  // ---------------------------------------------------------------------------
  // Carrying out the plan

  /** `f` is what the tool raises when the file system refuses `a`. */
  predicate RaisedBy(f: Fault, a: Action) {
    match a
    case Remove(file) => f == RemoveFailed(file)
    case Symlink(target, link) => f == SymlinkFailed(target, link)
  }

  /** A run makes the planned calls in order, up to the first one refused. */
  lemma ExecutionPrefix(toCreate: map<string, string>, toReplace: seq<string>, replace: bool, dryRun: bool,
                        failing: set<Action>, x: Run, acts: seq<Action>)
    requires x == Execution(toCreate, toReplace, replace, dryRun, failing)
    requires acts == Actions(toCreate, toReplace, replace, dryRun)
    ensures |x.log| <= |acts| && x.log == acts[..|x.log|]
    ensures forall a :: a in x.log ==> a !in failing
    ensures |x.log| < |acts| ==> acts[|x.log|] in failing
  {
    ExecutionLog(toCreate, toReplace, replace, dryRun, failing);
    CarriedOut(acts, failing, x.log);
  }

  /** The calls carried out of `acts` are a prefix of it, none refused, and the next one refused. */
  lemma CarriedOut(acts: seq<Action>, failing: set<Action>, log: seq<Action>)
    requires log == acts[..Succeeding(acts, failing)]
    ensures |log| <= |acts| && log == acts[..|log|]
    ensures forall a :: a in log ==> a !in failing
    ensures |log| < |acts| ==> acts[|log|] in failing
  {
    SucceedingStops(acts, failing);
    forall a | a in log ensures a !in failing {
      var j :| 0 <= j < |log| && log[j] == a;
      assert a == acts[j];
    }
  }

  /**
   * A run completes exactly when it makes every planned call, and then
   * reports the count of links; otherwise it raises for the call after the
   * last one made, after reporting it if it was a link.
   */
  lemma ExecutionEnds(toCreate: map<string, string>, toReplace: seq<string>, replace: bool, dryRun: bool,
                      failing: set<Action>, x: Run, acts: seq<Action>)
    requires x == Execution(toCreate, toReplace, replace, dryRun, failing)
    requires acts == Actions(toCreate, toReplace, replace, dryRun)
    ensures x.status == Returned <==> x.log == acts
    ensures x.status.Raised? ==> |x.log| < |acts| && RaisedBy(x.status.fault, acts[|x.log|])
    ensures x.status == Returned ==> |x.out| > 0 && x.out[|x.out| - 1] == Created(|toCreate|)
    ensures x.status.Raised? && x.status.fault.SymlinkFailed? ==>
              |x.out| > 0 && x.out[|x.out| - 1] == LinkFailed(x.status.fault.link, x.status.fault.target)
  {
    var rem := PlannedRemovals(toReplace, replace, dryRun);
    if dryRun {
      assert acts == [];
      AfterRemovals(toCreate, toReplace, replace, dryRun, failing);
    } else if Succeeding(rem, failing) < |rem| {
      StopsAtRemoval(toCreate, toReplace, replace, failing, x, acts);
    } else {
      StopsAtLink(toCreate, toReplace, replace, failing, x, acts);
    }
  }

  lemma StopsAtRemoval(toCreate: map<string, string>, toReplace: seq<string>, replace: bool,
                       failing: set<Action>, x: Run, acts: seq<Action>)
    requires x == Execution(toCreate, toReplace, replace, false, failing)
    requires acts == Actions(toCreate, toReplace, replace, false)
    requires Succeeding(PlannedRemovals(toReplace, replace, false), failing) < |PlannedRemovals(toReplace, replace, false)|
    ensures x.status.Raised? && x.status.fault.RemoveFailed? && x.log != acts
    ensures |x.log| < |acts| && RaisedBy(x.status.fault, acts[|x.log|])
  {
    var rem := PlannedRemovals(toReplace, replace, false);
    var lnk := Links(LinkOrder(toCreate), toCreate);
    assert acts == rem + lnk;
    SucceedingAppend(rem, lnk, failing);
    var r := Succeeding(rem, failing);
    assert acts[r] == rem[r];
    assert rem[r] == Remove(RemovalOrder(toReplace)[r]);
  }

  lemma StopsAtLink(toCreate: map<string, string>, toReplace: seq<string>, replace: bool,
                    failing: set<Action>, x: Run, acts: seq<Action>)
    requires x == Execution(toCreate, toReplace, replace, false, failing)
    requires acts == Actions(toCreate, toReplace, replace, false)
    requires Succeeding(PlannedRemovals(toReplace, replace, false), failing) == |PlannedRemovals(toReplace, replace, false)|
    ensures x.status == Returned <==> x.log == acts
    ensures x.status.Raised? ==> x.status.fault.SymlinkFailed? && |x.log| < |acts| && RaisedBy(x.status.fault, acts[|x.log|])
    ensures x.status == Returned ==> |x.out| > 0 && x.out[|x.out| - 1] == Created(|toCreate|)
    ensures x.status.Raised? ==>
              |x.out| > 0 && x.out[|x.out| - 1] == LinkFailed(x.status.fault.link, x.status.fault.target)
  {
    var rem := PlannedRemovals(toReplace, replace, false);
    var keys := LinkOrder(toCreate);
    var lnk := Links(keys, toCreate);
    assert acts == rem + lnk;
    AfterRemovals(toCreate, toReplace, replace, false, failing);
    var s := Succeeding(lnk, failing);
    if s < |lnk| {
      assert acts[|rem| + s] == lnk[s] == Symlink(toCreate[keys[s]], keys[s]);
      assert |x.log| == |rem| + s;
    }
  }

  // ---------------------------------------------------------------------------
  // The whole run

  /** The run gets as far as planning, with the file table `seqToFile` and the aliases read. */
  ghost predicate Planning(w: World, prefix: string, ext: string,
                           seqToFile: map<CodePoints, string>, aliases: AliasMap) {
    w.isDir && Scan(w.listing, prefix, ext) == Success(seqToFile) && Load(w.aliasFile) == Success(aliases)
  }

  /**
   * A run that stops before planning makes no call: a missing directory is
   * only reported, a bad file name or a bad alias file raises.
   */
  lemma OutcomeBeforePlanning(w: World, prefix: string, ext: string, replace: bool, dryRun: bool)
    ensures !w.isDir ==> Outcome(w, prefix, ext, replace, dryRun) == Run([], [NotADirectory(w.filedir)], Returned)
    ensures w.isDir && Scan(w.listing, prefix, ext).Failure? ==>
              Outcome(w, prefix, ext, replace, dryRun).log == [] &&
              Outcome(w, prefix, ext, replace, dryRun).status == Raised(BadFileName(Scan(w.listing, prefix, ext).error))
    ensures w.isDir && Scan(w.listing, prefix, ext).Success? && Load(w.aliasFile).Failure? ==>
              Outcome(w, prefix, ext, replace, dryRun).log == [] &&
              Outcome(w, prefix, ext, replace, dryRun).status == Raised(BadAliasFile(Load(w.aliasFile).error))
  {
  }

  /** Once planning is reached, the run carries out the plan for the aliases read. */
  lemma OutcomeOfPlan(w: World, prefix: string, ext: string, replace: bool, dryRun: bool,
                      seqToFile: map<CodePoints, string>, aliases: AliasMap, p: Plan, x: Run)
    requires Planning(w, prefix, ext, seqToFile, aliases)
    requires p == PlanFor(aliases, seqToFile, prefix, ext, replace)
    requires x == Execution(p.toCreate, p.toReplace, replace, dryRun, w.failing)
    ensures Outcome(w, prefix, ext, replace, dryRun) == Run(x.log, Reports(Kinds(w.aliasFile)) + p.out + x.out, x.status)
  {
  }

  /** The run's calls, and the plan they come from, when planning is reached. */
  lemma PlannedRun(w: World, prefix: string, ext: string, replace: bool, dryRun: bool)
    returns (seqToFile: map<CodePoints, string>, aliases: AliasMap, p: Plan, x: Run)
    requires w.isDir && Scan(w.listing, prefix, ext).Success? && Load(w.aliasFile).Success?
    ensures Planning(w, prefix, ext, seqToFile, aliases)
    ensures p == PlanFor(aliases, seqToFile, prefix, ext, replace)
    ensures x == Execution(p.toCreate, p.toReplace, replace, dryRun, w.failing)
    ensures Outcome(w, prefix, ext, replace, dryRun) == Run(x.log, Reports(Kinds(w.aliasFile)) + p.out + x.out, x.status)
  {
    seqToFile, aliases := Scan(w.listing, prefix, ext).value, Load(w.aliasFile).value;
    p := PlanFor(aliases, seqToFile, prefix, ext, replace);
    x := Execution(p.toCreate, p.toReplace, replace, dryRun, w.failing);
    OutcomeOfPlan(w, prefix, ext, replace, dryRun, seqToFile, aliases, p, x);
  }

  /** A dry run makes no call, and cannot be stopped by the file system. */
  lemma DryRunChangesNothing(w: World, prefix: string, ext: string, replace: bool)
    ensures Outcome(w, prefix, ext, replace, true).log == []
    ensures Outcome(w, prefix, ext, replace, true).status.Raised? ==>
              Outcome(w, prefix, ext, replace, true).status.fault.BadFileName? ||
              Outcome(w, prefix, ext, replace, true).status.fault.BadAliasFile?
  {
    OutcomeBeforePlanning(w, prefix, ext, replace, true);
    if w.isDir && Scan(w.listing, prefix, ext).Success? && Load(w.aliasFile).Success? {
      var seqToFile, aliases, p, x := PlannedRun(w, prefix, ext, replace, true);
      var acts := Actions(p.toCreate, p.toReplace, replace, true);
      ActionsPlanned(p.toCreate, p.toReplace, replace, true, acts);
      ExecutionPrefix(p.toCreate, p.toReplace, replace, true, w.failing, x, acts);
      ExecutionEnds(p.toCreate, p.toReplace, replace, true, w.failing, x, acts);
    }
  }

  /** The calls of a run: removals first, then links, each kind in increasing order of name. */
  lemma RemovalsBeforeLinks(w: World, prefix: string, ext: string, replace: bool, dryRun: bool, log: seq<Action>)
    requires log == Outcome(w, prefix, ext, replace, dryRun).log
    ensures InOrder(log)
  {
    OutcomeBeforePlanning(w, prefix, ext, replace, dryRun);
    if w.isDir && Scan(w.listing, prefix, ext).Success? && Load(w.aliasFile).Success? {
      var seqToFile, aliases, p, x := PlannedRun(w, prefix, ext, replace, dryRun);
      var acts := Actions(p.toCreate, p.toReplace, replace, dryRun);
      ActionsOrdered(p.toCreate, p.toReplace, replace, dryRun, acts);
      ExecutionPrefix(p.toCreate, p.toReplace, replace, dryRun, w.failing, x, acts);
      InOrderPrefix(acts, |log|);
    }
  }

  /**
   * Every call a run makes is planned: a link from the name of an alias whose
   * target has a file, to that file; a removal, only when replacing, of the
   * existing file of such an alias; every file named is a directory entry;
   * and no call the run made was refused.
   */
  lemma CallsArePlanned(w: World, prefix: string, ext: string, replace: bool, dryRun: bool,
                        seqToFile: map<CodePoints, string>, aliases: AliasMap, log: seq<Action>)
    requires Planning(w, prefix, ext, seqToFile, aliases)
    requires log == Outcome(w, prefix, ext, replace, dryRun).log
    ensures forall a :: a in log && a.Symlink? ==>
              a.target in w.listing &&
              exists als :: als in aliases && Planned(aliases, seqToFile, replace, als) &&
                            a.link == AliasName(prefix, als, ext) && a.target == seqToFile[aliases[als]]
    ensures forall a :: a in log && a.Remove? ==>
              replace && a.file in w.listing &&
              exists als :: als in aliases && Planned(aliases, seqToFile, replace, als) &&
                            als in seqToFile && a.file == seqToFile[als]
    ensures forall a :: a in log ==> a !in w.failing
  {
    var p := PlanFor(aliases, seqToFile, prefix, ext, replace);
    var x := Execution(p.toCreate, p.toReplace, replace, dryRun, w.failing);
    OutcomeOfPlan(w, prefix, ext, replace, dryRun, seqToFile, aliases, p, x);
    var acts := Actions(p.toCreate, p.toReplace, replace, dryRun);
    ActionsPlanned(p.toCreate, p.toReplace, replace, dryRun, acts);
    ExecutionPrefix(p.toCreate, p.toReplace, replace, dryRun, w.failing, x, acts);
    assert forall a :: a in log ==> a in acts;
    FilesListed(w.listing, prefix, ext, seqToFile);
    LinksArePlanned(aliases, seqToFile, prefix, ext, replace, p, log);
    RemovalsArePlanned(aliases, seqToFile, prefix, ext, replace, p, log);
  }

  lemma LinksArePlanned(aliases: AliasMap, seqToFile: map<CodePoints, string>, prefix: string, ext: string, replace: bool,
                        p: Plan, log: seq<Action>)
    requires p == PlanFor(aliases, seqToFile, prefix, ext, replace)
    requires forall a :: a in log && a.Symlink? ==> a.link in p.toCreate && a.target == p.toCreate[a.link]
    ensures forall a :: a in log && a.Symlink? ==>
              exists als :: als in aliases && Planned(aliases, seqToFile, replace, als) &&
                            a.link == AliasName(prefix, als, ext) && a.target == seqToFile[aliases[als]]
  {
    PlanCreates(aliases, seqToFile, prefix, ext, replace);
    PlanLinksPlanned(aliases, seqToFile, prefix, ext, replace);
  }

  lemma RemovalsArePlanned(aliases: AliasMap, seqToFile: map<CodePoints, string>, prefix: string, ext: string, replace: bool,
                           p: Plan, log: seq<Action>)
    requires p == PlanFor(aliases, seqToFile, prefix, ext, replace)
    requires forall a :: a in log && a.Remove? ==> a.file in p.toReplace
    ensures forall a :: a in log && a.Remove? ==>
              exists als :: als in aliases && Planned(aliases, seqToFile, replace, als) &&
                            als in seqToFile && a.file == seqToFile[als]
  {
    PlanReplaces(aliases, seqToFile, prefix, ext, replace);
  }

  /** Every file in the table is a directory entry. */
  lemma FilesListed(listing: seq<string>, prefix: string, ext: string, seqToFile: map<CodePoints, string>)
    requires Scan(listing, prefix, ext) == Success(seqToFile)
    ensures forall k :: k in seqToFile ==> seqToFile[k] in listing
  {
    var names := Globbed(listing, prefix, ext);
    GlobbedMatch(listing, prefix, ext);
    ScanEntries(names, prefix, ext, seqToFile);
  }

  /** Without `replace`, a run removes nothing. */
  lemma NothingRemovedWithoutReplace(w: World, prefix: string, ext: string, dryRun: bool)
    ensures forall a :: a in Outcome(w, prefix, ext, false, dryRun).log ==> a.Symlink?
  {
    OutcomeBeforePlanning(w, prefix, ext, false, dryRun);
    if w.isDir && Scan(w.listing, prefix, ext).Success? && Load(w.aliasFile).Success? {
      var seqToFile, aliases, p, x := PlannedRun(w, prefix, ext, false, dryRun);
      CallsArePlanned(w, prefix, ext, false, dryRun, seqToFile, aliases, x.log);
    }
  }

  /**
   * A run that completes links every planned alias (and, when replacing,
   * first removes every file it replaces), and ends by reporting the count
   * of links.
   */
  lemma CompletedRunLinksAll(w: World, prefix: string, ext: string, replace: bool,
                             seqToFile: map<CodePoints, string>, aliases: AliasMap)
    requires Planning(w, prefix, ext, seqToFile, aliases)
    requires Outcome(w, prefix, ext, replace, false).status == Returned
    ensures forall als :: als in aliases && Planned(aliases, seqToFile, replace, als) ==>
              Symlink(seqToFile[aliases[als]], AliasName(prefix, als, ext)) in Outcome(w, prefix, ext, replace, false).log
    ensures replace ==> forall als :: als in aliases && Planned(aliases, seqToFile, replace, als) && als in seqToFile ==>
              Remove(seqToFile[als]) in Outcome(w, prefix, ext, replace, false).log
    ensures |Outcome(w, prefix, ext, replace, false).out| > 0
    ensures Outcome(w, prefix, ext, replace, false).out[|Outcome(w, prefix, ext, replace, false).out| - 1] ==
            Created(|PlanFor(aliases, seqToFile, prefix, ext, replace).toCreate|)
  {
    var p := PlanFor(aliases, seqToFile, prefix, ext, replace);
    var x := Execution(p.toCreate, p.toReplace, replace, false, w.failing);
    OutcomeOfPlan(w, prefix, ext, replace, false, seqToFile, aliases, p, x);
    var acts := Actions(p.toCreate, p.toReplace, replace, false);
    ActionsPlanned(p.toCreate, p.toReplace, replace, false, acts);
    ExecutionEnds(p.toCreate, p.toReplace, replace, false, w.failing, x, acts);
    PlanCreates(aliases, seqToFile, prefix, ext, replace);
    PlanReplaces(aliases, seqToFile, prefix, ext, replace);
  }

  /**
   * A refused link ends the run: it is reported last, it and every link
   * after it in sorted order are not made, and the links made all come
   * before it.
   */
  lemma FailedLinkStopsRun(w: World, prefix: string, ext: string, replace: bool, dryRun: bool,
                           target: string, link: string)
    requires Outcome(w, prefix, ext, replace, dryRun).status == Raised(SymlinkFailed(target, link))
    ensures Symlink(target, link) in w.failing && Symlink(target, link) !in Outcome(w, prefix, ext, replace, dryRun).log
    ensures forall a :: a in Outcome(w, prefix, ext, replace, dryRun).log && a.Symlink? ==> StrLess(a.link, link)
    ensures |Outcome(w, prefix, ext, replace, dryRun).out| > 0
    ensures Outcome(w, prefix, ext, replace, dryRun).out[|Outcome(w, prefix, ext, replace, dryRun).out| - 1] == LinkFailed(link, target)
  {
    OutcomeBeforePlanning(w, prefix, ext, replace, dryRun);
    var seqToFile, aliases, p, x := PlannedRun(w, prefix, ext, replace, dryRun);
    LinkFailureStops(p.toCreate, p.toReplace, replace, dryRun, w.failing, x, target, link);
  }

  /** The execution-level part of `FailedLinkStopsRun`. */
  lemma LinkFailureStops(toCreate: map<string, string>, toReplace: seq<string>, replace: bool, dryRun: bool,
                         failing: set<Action>, x: Run, target: string, link: string)
    requires x == Execution(toCreate, toReplace, replace, dryRun, failing)
    requires x.status == Raised(SymlinkFailed(target, link))
    ensures Symlink(target, link) in failing && Symlink(target, link) !in x.log
    ensures forall a :: a in x.log && a.Symlink? ==> StrLess(a.link, link)
    ensures |x.out| > 0 && x.out[|x.out| - 1] == LinkFailed(link, target)
  {
    var acts := Actions(toCreate, toReplace, replace, dryRun);
    ActionsOrdered(toCreate, toReplace, replace, dryRun, acts);
    ExecutionPrefix(toCreate, toReplace, replace, dryRun, failing, x, acts);
    ExecutionEnds(toCreate, toReplace, replace, dryRun, failing, x, acts);
    assert acts[|x.log|] == Symlink(target, link);
    StopsBefore(acts, |x.log|, failing);
    InOrderBefore(acts, |x.log|);
  }

  /**
   * A refused removal ends the run before any link: the removals made all
   * come before it in sorted order.
   */
  lemma FailedRemovalStopsRun(w: World, prefix: string, ext: string, replace: bool, dryRun: bool, file: string)
    requires Outcome(w, prefix, ext, replace, dryRun).status == Raised(RemoveFailed(file))
    ensures Remove(file) in w.failing && Remove(file) !in Outcome(w, prefix, ext, replace, dryRun).log
    ensures forall a :: a in Outcome(w, prefix, ext, replace, dryRun).log ==> a.Remove? && StrLess(a.file, file)
  {
    OutcomeBeforePlanning(w, prefix, ext, replace, dryRun);
    var seqToFile, aliases, p, x := PlannedRun(w, prefix, ext, replace, dryRun);
    RemovalFailureStops(p.toCreate, p.toReplace, replace, dryRun, w.failing, x, file);
  }

  /** The execution-level part of `FailedRemovalStopsRun`. */
  lemma RemovalFailureStops(toCreate: map<string, string>, toReplace: seq<string>, replace: bool, dryRun: bool,
                            failing: set<Action>, x: Run, file: string)
    requires x == Execution(toCreate, toReplace, replace, dryRun, failing)
    requires x.status == Raised(RemoveFailed(file))
    ensures Remove(file) in failing && Remove(file) !in x.log
    ensures forall a :: a in x.log ==> a.Remove? && StrLess(a.file, file)
  {
    var acts := Actions(toCreate, toReplace, replace, dryRun);
    ActionsOrdered(toCreate, toReplace, replace, dryRun, acts);
    ExecutionPrefix(toCreate, toReplace, replace, dryRun, failing, x, acts);
    ExecutionEnds(toCreate, toReplace, replace, dryRun, failing, x, acts);
    assert acts[|x.log|] == Remove(file);
    StopsBefore(acts, |x.log|, failing);
    InOrderBefore(acts, |x.log|);
  }

  /** A refused call is not among the calls made before it. */
  lemma StopsBefore(acts: seq<Action>, n: nat, failing: set<Action>)
    requires n < |acts| && acts[n] in failing
    requires forall a :: a in acts[..n] ==> a !in failing
    ensures acts[n] !in acts[..n]
  {
  }
}
