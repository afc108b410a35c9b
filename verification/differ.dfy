/**
 * Diff preparation (main.go:159-188, 261-267): the byte delta, the decision
 * to reformat script content, and `beautifyJs`. The JavaScript reformatter
 * and the unified-diff generator are libraries; they enter the model as
 * function parameters about which nothing is assumed.
 */
module Differ {
  import opened Wrappers
  import opened Bytes
  import opened Normalize

  /** `Abs` (main.go:159-164). */
  function Abs(x: int): (r: nat)
    ensures r == x || r == -x
  {
    if x < 0 then -x else x
  }

  /** `Abs(len(bodyOld) - len(bodyNew))` (main.go:183). */
  function ByteDelta(bodyOld: Bytes, bodyNew: Bytes): (d: nat)
    ensures d == |bodyOld| - |bodyNew| || d == |bodyNew| - |bodyOld|
  {
    Abs(|bodyOld| - |bodyNew|)
  }

  lemma ByteDeltaSymmetric(a: Bytes, b: Bytes)
    ensures ByteDelta(a, b) == ByteDelta(b, a)
  {
  }

  /** Snapshots of 100 and 130 bytes are 30 bytes apart, either way round. */
  lemma ByteDeltaExample(a: Bytes, b: Bytes)
    requires |a| == 100 && |b| == 130
    ensures ByteDelta(a, b) == 30 && ByteDelta(b, a) == 30
  {
  }

  /** "\n\n", the separator `beautifyJs` splits at. */
  const BlankLine: Bytes := [LF, LF]

  /**
   * `strings.SplitN(s, "\n\n", 2)` when it yields two parts: the text before
   * the first blank line and the text after it.
   */
  function SplitAtBlankLine(s: Bytes): (r: Option<(Bytes, Bytes)>)
    ensures r.None? <==> !Contains(s, BlankLine)
    ensures r.Some? ==> s == r.value.0 + BlankLine + r.value.1
    ensures r.Some? ==> forall j | 0 <= j < |r.value.0| :: !OccursAt(s, BlankLine, j)
  {
    match Index(s, BlankLine)
    case None => None
    case Some(i) =>
      assert s == s[..i] + BlankLine + s[i + 2..];
      Some((s[..i], s[i + 2..]))
  }

  /** `jsbeautifier.Beautify`: the reformatted text, or None when it reports an error. */
  type Beautifier = Bytes -> Option<Bytes>

  /** `difflib.GetUnifiedDiffString` over the lines of two texts. */
  type UnifiedDiff = (Bytes, Bytes) -> Bytes

  /**
   * `beautifyJs` (main.go:166-180): keep everything up to the first blank
   * line, reformat what follows; fall back to the input when there is no
   * blank line or the reformatter fails.
   */
  function BeautifyJs(s: Bytes, beautify: Beautifier): (r: Bytes)
    ensures !Contains(s, BlankLine) ==> r == s
    ensures r != s ==> exists i :: OccursAt(s, BlankLine, i) && i + 2 <= |r| && r[..i + 2] == s[..i + 2]
  {
    match SplitAtBlankLine(s)
    case None => s
    case Some((head, tail)) =>
      match beautify(tail)
      case None => s
      case Some(beautified) =>
        assert OccursAt(s, BlankLine, |head|) by { OccursInMiddle(head, BlankLine, tail); }
        assert (head + BlankLine + beautified)[..|head| + 2] == s[..|head| + 2];
        head + BlankLine + beautified
  }

  /**
   * The split point is the first blank line: for a head that has no blank
   * line and does not end in a line feed, `beautifyJs` keeps the head and
   * the separator verbatim and replaces the tail by its reformatting, or
   * returns the input when reformatting fails.
   */
  lemma BeautifyJsKeepsHead(head: Bytes, tail: Bytes, beautify: Beautifier)
    requires !Contains(head + [LF], BlankLine)
    ensures BeautifyJs(head + BlankLine + tail, beautify)
         == match beautify(tail)
            case None => head + BlankLine + tail
            case Some(u) => head + BlankLine + u
  {
    var s := head + BlankLine + tail;
    OccursInMiddle(head, BlankLine, tail);
    var k := Index(s, BlankLine).value;
    if k < |head| {
      assert s[k..k + 2] == (head + [LF])[k..k + 2];
      assert OccursAt(head + [LF], BlankLine, k);
      assert false;
    }
    assert SplitAtBlankLine(s) == Some((head, tail));
  }

  /** A reformatter that always fails leaves every input unchanged. */
  lemma BeautifyJsFallback(s: Bytes, beautify: Beautifier)
    requires forall t :: beautify(t).None?
    ensures BeautifyJs(s, beautify) == s
  {
  }

  /** "javascript" */
  const Javascript: Bytes := Ascii("javascript")

  /**
   * main.go:261-265: reformat only when it was requested and the response's
   * Content-Type contains "javascript".
   */
  function ShouldBeautify(requested: bool, header: map<Bytes, Bytes>): (r: bool)
    ensures r <==> requested && exists i :: OccursAt(Get(header, ContentType), Javascript, i)
  {
    requested && Contains(Get(header, ContentType), Javascript)
  }

  /** What `handleDiff` computes before rendering: the byte delta and the diff text. */
  datatype Diff = Diff(delta: nat, text: Bytes)

  /**
   * `handleDiff` (main.go:182-197): the delta is taken from the snapshots as
   * stored, before any reformatting; the diff is taken of the reformatted
   * texts when `beautify` holds.
   */
  function HandleDiff(bodyOld: Bytes, bodyNew: Bytes, beautify: bool, beautifier: Beautifier, unified: UnifiedDiff): (d: Diff)
    ensures d.delta == ByteDelta(bodyOld, bodyNew)
    ensures !beautify ==> d.text == unified(bodyOld, bodyNew)
    ensures beautify ==> d.text == unified(BeautifyJs(bodyOld, beautifier), BeautifyJs(bodyNew, beautifier))
  {
    var a := if beautify then BeautifyJs(bodyOld, beautifier) else bodyOld;
    var b := if beautify then BeautifyJs(bodyNew, beautifier) else bodyNew;
    Diff(ByteDelta(bodyOld, bodyNew), unified(a, b))
  }

  /** Reformatting never changes the reported delta, whatever the reformatter does. */
  lemma DeltaIgnoresBeautify(bodyOld: Bytes, bodyNew: Bytes, beautifier: Beautifier, unified: UnifiedDiff)
    ensures HandleDiff(bodyOld, bodyNew, true, beautifier, unified).delta
         == HandleDiff(bodyOld, bodyNew, false, beautifier, unified).delta
         == ByteDelta(bodyOld, bodyNew)
  {
  }

  /**
   * Reformatting a full snapshot touches only its body: the status and header
   * lines and the blank line are kept verbatim, and the body portion is
   * replaced by its reformatting, or everything is kept when that fails.
   */
  lemma BeautifyReformatsOnlyBody(r: Response, beautify: Beautifier)
    requires LF !in r.proto && LF !in r.status
    requires forall n | n in r.header :: LF !in r.header[n]
    ensures BeautifyJs(Minified(r, false), beautify)
         == match beautify(BodyPart(r.body))
            case None => Minified(r, false)
            case Some(u) => HeaderPart(r, false) + [LF] + u
  {
    var part, body := HeaderPart(r, false), BodyPart(r.body);
    HeaderPartHasNoBlankLine(r, false);
    var head := part[..|part| - 1];
    assert head + [LF] == part;
    assert !Contains(head + [LF], BlankLine);
    assert Minified(r, false) == part + ([LF] + body);
    Rejoin(head, body);
    BeautifyJsKeepsHead(head, body, beautify);
    match beautify(body)
    case None =>
    case Some(u) => Rejoin(head, u);
  }

  /** A line feed ending one part and one starting the next make a blank line. */
  lemma Rejoin(head: Bytes, t: Bytes)
    ensures (head + [LF]) + ([LF] + t) == head + BlankLine + t
    ensures (head + [LF]) + [LF] + t == head + BlankLine + t
  {
  }

  /** A headers-only snapshot has no blank line, so reformatting never changes it. */
  lemma BeautifyKeepsHeadersOnly(r: Response, beautify: Beautifier)
    requires LF !in r.proto && LF !in r.status
    requires forall n | n in r.header :: LF !in r.header[n]
    ensures BeautifyJs(Minified(r, true), beautify) == Minified(r, true)
  {
    var part := HeaderPart(r, true);
    HeaderPartHasNoBlankLine(r, true);
    assert Minified(r, true) == part + [] == part;
    assert !Contains(Minified(r, true), BlankLine);
  }
}
