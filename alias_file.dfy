/**
 * The alias file reader of the alias tool. Each line is
 * `<alias token> ; <target token>`, with an optional `#` comment; blank lines
 * are ignored. The result maps each alias sequence to its target sequence,
 * the last line wins for an alias defined twice.
 *
 * A line that does not split into exactly two fields, or whose alias token is
 * not hex, makes the tool raise: the model returns an error naming the line.
 * A line whose target token is not hex is reported and skipped.
 */
module AliasFile {
  import opened Wrappers
  import opened Codec
  import opened Diagnostics

  type AliasMap = map<CodePoints, CodePoints>

  // ---------------------------------------------------------------------------
  // Text helpers: str.find and str.strip

  /** The whitespace Python 2's `str.strip()` removes: space, \t, \n, \v, \f, \r. */
  predicate IsSpace(c: char) {
    c == ' ' || '\t' <= c <= '\r'
  }

  predicate AllSpace(s: string) {
    forall i :: 0 <= i < |s| ==> IsSpace(s[i])
  }

  /** Python's `s.find(c)`: the first index of `c`, or -1. */
  function Find(s: string, c: char): (i: int)
    ensures -1 <= i < |s|
    ensures i == -1 <==> c !in s
    ensures i >= 0 ==> s[i] == c && c !in s[..i]
    decreases |s|
  {
    if |s| == 0 then -1
    else if s[0] == c then 0
    else
      var k := Find(s[1..], c);
      assert k >= 0 ==> s[..k + 1] == [s[0]] + s[1..][..k];
      if k == -1 then -1 else k + 1
  }

  /** Removes leading whitespace. */
  function TrimLeft(s: string): (r: string)
    ensures |r| <= |s| && r == s[|s| - |r|..]
    ensures AllSpace(s[..|s| - |r|])
    ensures |r| > 0 ==> !IsSpace(r[0])
    decreases |s|
  {
    if |s| > 0 && IsSpace(s[0]) then TrimLeft(s[1..]) else s
  }

  /** Removes trailing whitespace. */
  function TrimRight(s: string): (r: string)
    ensures |r| <= |s| && r == s[..|r|]
    ensures AllSpace(s[|r|..])
    ensures |r| > 0 ==> !IsSpace(r[|r| - 1])
    decreases |s|
  {
    if |s| > 0 && IsSpace(s[|s| - 1]) then TrimRight(s[..|s| - 1]) else s
  }

  /** Python's `s.strip()`. */
  function Strip(s: string): string {
    TrimRight(TrimLeft(s))
  }

  /**
   * `s.strip()` cuts only whitespace, and only from the two ends of `s`; the
   * result neither starts nor ends with whitespace.
   */
  lemma StripProperties(s: string) returns (i: nat)
    ensures i + |Strip(s)| <= |s| && Strip(s) == s[i..i + |Strip(s)|]
    ensures AllSpace(s[..i]) && AllSpace(s[i + |Strip(s)|..])
    ensures |Strip(s)| > 0 ==> !IsSpace(Strip(s)[0]) && !IsSpace(Strip(s)[|Strip(s)| - 1])
  {
    var left := TrimLeft(s);
    var r := TrimRight(left);
    i := |s| - |left|;
    assert left == s[i..];
    assert r == s[i..i + |r|];
    assert s[i + |r|..] == left[|r|..];
  }

  /** `s.strip()` is empty exactly when `s` is all whitespace. */
  lemma StripEmpty(s: string)
    ensures Strip(s) == "" <==> AllSpace(s)
  {
    var left := TrimLeft(s);
    var i := |s| - |left|;
    assert left == s[i..];
    if Strip(s) == "" {
      assert s == s[..i] + left;
    }
  }

  // ---------------------------------------------------------------------------
  // One line

  /** What one line of the alias file amounts to. */
  datatype LineKind =
    /** Empty after the comment is cut and the line is trimmed: skipped. */
    | Blank
    /** The line splits on `;` into this many fields instead of two: the tool raises. */
    | Malformed(fields: nat)
    /** The alias token is not hex: the tool raises. */
    | BadAlias(aliasToken: string)
    /** The target token is not hex: reported and skipped. */
    | BadTarget(aliasToken: string, targetToken: string)
    /** A definition. */
    | Entry(alias: CodePoints, target: CodePoints)

  /** The text before the first `#`. */
  function CutComment(line: string): (r: string)
    ensures '#' !in r
  {
    var ix := Find(line, '#');
    if ix > -1 then line[..ix] else line
  }

  /** The per-line logic of `read_emoji_aliases`. */
  function ParseLine(line: string): LineKind {
    ParseContent(Strip(CutComment(line)))
  }

  /** A line once its comment is cut and it is trimmed. */
  function ParseContent(content: string): LineKind {
    if content == "" then Blank
    else
      var fields := Split(content, ';');
      if |fields| != 2 then Malformed(|fields|)
      else ParseTokens(Strip(fields[0]), Strip(fields[1]))
  }

  /** The two trimmed fields of a line; the alias token is read first. */
  function ParseTokens(als: string, trg: string): LineKind {
    match StrToSeq(als)
    case None => BadAlias(als)
    case Some(alsSeq) =>
      match StrToSeq(trg)
      case None => BadTarget(als, trg)
      case Some(trgSeq) => Entry(alsSeq, trgSeq)
  }

  lemma CutCommentAt(code: string, comment: string)
    requires '#' !in code
    ensures CutComment(code + "#" + comment) == code == CutComment(code)
  {
    var line := code + "#" + comment;
    var i := Find(line, '#');
    assert line[|code|] == '#';
    assert line[..|code|] == code;
  }

  /** Everything from the first `#` on is ignored. */
  lemma CommentIgnored(code: string, comment: string)
    requires '#' !in code
    ensures ParseLine(code + "#" + comment) == ParseLine(code)
  {
    CutCommentAt(code, comment);
  }

  /** A line adds nothing exactly when its text before any `#` is blank. */
  lemma BlankLine(line: string)
    ensures ParseLine(line) == Blank <==> AllSpace(CutComment(line))
  {
    StripEmpty(CutComment(line));
  }

  // ---------------------------------------------------------------------------
  // The whole file

  datatype LoadError =
    /** The line at `index` split into `fields` fields. */
    | MalformedLine(index: nat, fields: nat)
    /** The line at `index` has the non-hex alias token `token`. */
    | BadAliasToken(index: nat, token: string)

  /** The kind of each line of the file. */
  function Kinds(lines: seq<string>): (ks: seq<LineKind>)
    ensures |ks| == |lines|
    decreases |lines|
  {
    if |lines| == 0 then [] else Kinds(lines[..|lines| - 1]) + [ParseLine(lines[|lines| - 1])]
  }

  lemma {:induction false} KindAt(lines: seq<string>, i: nat)
    requires i < |lines|
    ensures Kinds(lines)[i] == ParseLine(lines[i])
    decreases |lines|
  {
    if i < |lines| - 1 {
      KindAt(lines[..|lines| - 1], i);
    }
  }

  /** The effect of the line at `index`, of kind `kind`, on the map read so far. */
  function Apply(m: AliasMap, kind: LineKind, index: nat): Result<AliasMap, LoadError> {
    match kind
    case Blank => Success(m)
    case BadTarget(_, _) => Success(m)
    case Entry(a, t) => Success(m[a := t])
    case Malformed(n) => Failure(MalformedLine(index, n))
    case BadAlias(tok) => Failure(BadAliasToken(index, tok))
  }

  /** The map built from lines of kinds `ks`, or the first line that raises. */
  function Fold(ks: seq<LineKind>): Result<AliasMap, LoadError>
    decreases |ks|
  {
    if |ks| == 0 then Success(map[])
    else
      match Fold(ks[..|ks| - 1])
      case Failure(e) => Failure(e)
      case Success(m) => Apply(m, ks[|ks| - 1], |ks| - 1)
  }

  /** The map `read_emoji_aliases` returns for the file `lines`, or the first line it raises on. */
  function Load(lines: seq<string>): Result<AliasMap, LoadError> {
    Fold(Kinds(lines))
  }

  /** The report of a line of kind `k`. */
  function Report(k: LineKind): seq<Message> {
    match k
    case BadTarget(als, trg) => [CannotProcess(als, trg)]
    case _ => []
  }

  /** The `cannot process alias` reports of lines of kinds `ks`, in order. */
  function Reports(ks: seq<LineKind>): seq<Message>
    decreases |ks|
  {
    if |ks| == 0 then [] else Reports(ks[..|ks| - 1]) + Report(ks[|ks| - 1])
  }

  lemma FoldSnoc(ks: seq<LineKind>, k: LineKind)
    ensures Fold(ks + [k]) ==
            match Fold(ks)
            case Failure(e) => Failure(e)
            case Success(m) => Apply(m, k, |ks|)
    ensures Reports(ks + [k]) == Reports(ks) + Report(k)
  {
    assert (ks + [k])[..|ks|] == ks;
  }

  /** A blank line, or one whose target is not hex, leaves the map unchanged. */
  lemma SkippedLine(ks: seq<LineKind>, k: LineKind)
    requires Fold(ks).Success?
    requires k.Blank? || k.BadTarget?
    ensures Fold(ks + [k]) == Fold(ks)
  {
    FoldSnoc(ks, k);
  }

  /** A line of the wrong shape or with a non-hex alias stops the reading with an error. */
  lemma FailingLine(ks: seq<LineKind>, k: LineKind)
    requires Fold(ks).Success?
    requires k.Malformed? || k.BadAlias?
    ensures Fold(ks + [k]).Failure?
    ensures Fold(ks + [k]).error.index == |ks|
  {
    FoldSnoc(ks, k);
  }

  /**
   * A definition sets its alias to its target and leaves every other alias
   * as it was.
   */
  lemma DefiningLine(ks: seq<LineKind>, a: CodePoints, t: CodePoints)
    requires Fold(ks).Success?
    ensures Fold(ks + [Entry(a, t)]).Success?
    ensures var m, m' := Fold(ks).value, Fold(ks + [Entry(a, t)]).value;
            a in m' && m'[a] == t &&
            forall b :: b != a ==> (b in m' <==> b in m) && (b in m ==> m'[b] == m[b])
  {
    FoldSnoc(ks, Entry(a, t));
  }

  /** Once a line raises, nothing after it is read. */
  lemma {:induction false} FailureIsFinal(ks: seq<LineKind>, more: seq<LineKind>)
    requires Fold(ks).Failure?
    ensures Fold(ks + more) == Fold(ks)
    decreases |more|
  {
    if |more| > 0 {
      var init := more[..|more| - 1];
      FailureIsFinal(ks, init);
      FoldSnoc(ks + init, more[|more| - 1]);
      assert ks + more == (ks + init) + [more[|more| - 1]];
    } else {
      assert ks + more == ks;
    }
  }

  /** The error names the first line that raises: every line before it reads cleanly. */
  lemma {:induction false} FirstFailingLine(ks: seq<LineKind>)
    requires Fold(ks).Failure?
    ensures var e := Fold(ks).error;
            e.index < |ks| && Fold(ks[..e.index]).Success? &&
            match e
            case MalformedLine(i, n) => ks[i] == Malformed(n)
            case BadAliasToken(i, tok) => ks[i] == BadAlias(tok)
    decreases |ks|
  {
    var init := ks[..|ks| - 1];
    if Fold(init).Failure? {
      FirstFailingLine(init);
      var e := Fold(init).error;
      assert init[..e.index] == ks[..e.index];
    }
  }

  /**
   * The last definition wins: the alias of the line at `i` maps to that
   * line's target when no later line defines the same alias.
   */
  lemma {:induction false} LastDefinitionWins(ks: seq<LineKind>, i: nat)
    requires Fold(ks).Success?
    requires i < |ks| && ks[i].Entry?
    requires forall j :: i < j < |ks| ==> !(ks[j].Entry? && ks[j].alias == ks[i].alias)
    ensures ks[i].alias in Fold(ks).value
    ensures Fold(ks).value[ks[i].alias] == ks[i].target
    decreases |ks|
  {
    var init := ks[..|ks| - 1];
    var last := ks[|ks| - 1];
    assert ks == init + [last];
    FoldSnoc(init, last);
    if Fold(init).Failure? {
      FailureIsFinal(init, [last]);
    } else if i < |ks| - 1 {
      LastDefinitionWins(init, i);
    }
  }

  /** `k` is a definition of the alias `a`. */
  predicate Defines(k: LineKind, a: CodePoints) {
    k.Entry? && k.alias == a
  }

  /** The keys of the map are exactly the aliases some line defines. */
  lemma {:induction false} DefinedAliases(ks: seq<LineKind>, a: CodePoints)
    requires Fold(ks).Success?
    ensures a in Fold(ks).value <==> exists i :: 0 <= i < |ks| && Defines(ks[i], a)
    decreases |ks|
  {
    if |ks| > 0 {
      var init := ks[..|ks| - 1];
      var last := ks[|ks| - 1];
      assert ks == init + [last];
      FoldSnoc(init, last);
      if Fold(init).Failure? {
        FailureIsFinal(init, [last]);
      } else {
        DefinedAliases(init, a);
        if exists i :: 0 <= i < |init| && Defines(init[i], a) {
          var i :| 0 <= i < |init| && Defines(init[i], a);
          assert ks[i] == init[i];
        }
        if exists i :: 0 <= i < |ks| && Defines(ks[i], a) {
          var i :| 0 <= i < |ks| && Defines(ks[i], a);
          if i < |init| {
            assert init[i] == ks[i];
          }
        }
      }
    }
  }

  /** The line at `i` is folded in after the lines before it. */
  lemma FoldStep(ks: seq<LineKind>, i: nat)
    requires i < |ks|
    ensures Fold(ks[..i + 1]) == (match Fold(ks[..i])
                                  case Failure(e) => Failure(e)
                                  case Success(m) => Apply(m, ks[i], i))
    ensures Reports(ks[..i + 1]) == Reports(ks[..i]) + Report(ks[i])
  {
    FoldSnoc(ks[..i], ks[i]);
    assert ks[..i + 1] == ks[..i] + [ks[i]];
  }

  /** Reading line `i` of `lines` once the lines before it were read into `m`. */
  lemma ReadStep(lines: seq<string>, ks: seq<LineKind>, i: nat, m: AliasMap)
    requires ks == Kinds(lines) && i < |lines|
    requires Fold(ks[..i]) == Success(m)
    ensures Fold(ks[..i + 1]) == Apply(m, ParseLine(lines[i]), i)
    ensures Reports(ks[..i + 1]) == Reports(ks[..i]) + Report(ParseLine(lines[i]))
  {
    KindAt(lines, i);
    FoldStep(ks, i);
  }

  /** A file that raises at line `i` raises there whatever follows. */
  lemma RaisesAt(ks: seq<LineKind>, i: nat)
    requires i < |ks| && Fold(ks[..i + 1]).Failure?
    ensures Fold(ks) == Fold(ks[..i + 1])
  {
    FailureIsFinal(ks[..i + 1], ks[i + 1..]);
    assert ks[..i + 1] + ks[i + 1..] == ks;
  }

  /**
   * The body of the loop of `read_emoji_aliases`, for line `index`: the map so
   * far updated by the line, or the error it raises, and what it reports.
   */
  method ReadLine(line: string, index: nat, m: AliasMap) returns (r: Result<AliasMap, LoadError>, out: seq<Message>)
    ensures r == Apply(m, ParseLine(line), index)
    ensures r.Failure? ==> r.error.index == index
    ensures out == Report(ParseLine(line))
  {
    out := [];
    var content := Strip(CutComment(line));
    assert ParseLine(line) == ParseContent(content);
    if content == "" {
      return Success(m), out;
    }
    var fields := Split(content, ';');
    if |fields| != 2 {
      return Failure(MalformedLine(index, |fields|)), out;
    }
    assert ParseContent(content) == ParseTokens(Strip(fields[0]), Strip(fields[1]));
    var als, trg := Strip(fields[0]), Strip(fields[1]);
    var alsSeq := StrToSeq(als);
    if alsSeq.None? {
      return Failure(BadAliasToken(index, als)), out;
    }
    var trgSeq := StrToSeq(trg);
    if trgSeq.None? {
      return Success(m), [CannotProcess(als, trg)];
    }
    r := Success(m[alsSeq.value := trgSeq.value]);
  }

  /**
   * `read_emoji_aliases` over the lines of the file: the map it builds is
   * `Load(lines)`, and its reports are those of the lines read before it
   * returned or raised.
   */
  method ReadEmojiAliases(lines: seq<string>) returns (r: Result<AliasMap, LoadError>, out: seq<Message>)
    ensures r == Load(lines)
    ensures r.Success? ==> out == Reports(Kinds(lines))
    ensures r.Failure? ==> r.error.index < |lines| && out == Reports(Kinds(lines)[..r.error.index])
  {
    ghost var ks := Kinds(lines);
    var result: AliasMap := map[];
    out := [];
    var i := 0;
    while i < |lines|
      invariant 0 <= i <= |lines|
      invariant Fold(ks[..i]) == Success(result)
      invariant out == Reports(ks[..i])
    {
      ReadStep(lines, ks, i, result);
      var step, said := ReadLine(lines[i], i, result);
      if step.Failure? {
        r := step;
        RaisesAt(ks, i);
        return;
      }
      result, out := step.value, out + said;
      i := i + 1;
    }
    assert ks[..i] == ks;
    r := Success(result);
  }
}
