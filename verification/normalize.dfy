/**
 * The response normaliser `minifyResponse` (main.go:213-240): it reduces a
 * fetched response to the canonical bytes that are stored and compared.
 *
 * Output layout:
 *   "<proto> <status>\n"
 *   "<Name>: <value>\n" for each whitelisted header with a non-empty value,
 *                       in whitelist order (Content-Length skipped in
 *                       headers-only mode)
 *   "\n" + at most BodyLimit body bytes, unless headers-only.
 */
module Normalize {
  import opened Bytes

  /** RESPONSE_BODY_LIMIT, 3 MiB (main.go:26). */
  const BodyLimit: nat := 1024 * 1024 * 3

  /**
   * A fetched response as `minifyResponse` sees it: the protocol ("HTTP/1.1"),
   * the status text ("200 OK"), the header map as answered by `Header.Get`,
   * and the bytes the body reader yields.
   */
  datatype Response = Response(proto: Bytes, status: Bytes, header: map<Bytes, Bytes>, body: Bytes)

  /** One emitted header: its whitelist name and its value. */
  datatype Field = Field(name: Bytes, value: Bytes)

  const ContentLength: Bytes := Ascii("Content-Length")
  const ContentType: Bytes := Ascii("Content-Type")

  /** `headerToInclude`, in its fixed order (main.go:31-47). */
  const Whitelist: seq<Bytes> := [
    Ascii("Host"),
    ContentLength,
    ContentType,
    Ascii("Location"),
    Ascii("Access-Control-Allow-Origin"),
    Ascii("Access-Control-Allow-Methods"),
    Ascii("Access-Control-Expose-Headers"),
    Ascii("Access-Control-Allow-Credentials"),
    Ascii("Allow"),
    Ascii("Content-Security-Policy"),
    Ascii("Proxy-Authenticate"),
    Ascii("Server"),
    Ascii("WWW-Authenticate"),
    Ascii("X-Frame-Options"),
    Ascii("X-Powered-By")
  ]

  /** `Header.Get`: the value of a header, or empty when it is absent. */
  function Get(header: map<Bytes, Bytes>, name: Bytes): Bytes
  {
    if name in header then header[name] else []
  }

  /** Whether the loop at main.go:221-230 writes a line for `name`. */
  predicate Emits(header: map<Bytes, Bytes>, name: Bytes, onlyHeaders: bool)
  {
    !(onlyHeaders && name == ContentLength) && Get(header, name) != []
  }

  /** The headers written for `names`, in the order of `names`. */
  function Emitted(header: map<Bytes, Bytes>, names: seq<Bytes>, onlyHeaders: bool): seq<Field>
    decreases |names|
  {
    if names == [] then []
    else
      var name := names[|names| - 1];
      Emitted(header, names[..|names| - 1], onlyHeaders)
        + (if Emits(header, name, onlyHeaders) then [Field(name, Get(header, name))] else [])
  }

  /** ": " */
  const ColonSpace: Bytes := [58, SP]

  /** "<Name>: <value>\n" */
  function HeaderLine(f: Field): Bytes
  {
    f.name + ColonSpace + f.value + [LF]
  }

  function JoinLines(fields: seq<Field>): Bytes
    decreases |fields|
  {
    if fields == [] then []
    else JoinLines(fields[..|fields| - 1]) + HeaderLine(fields[|fields| - 1])
  }

  /** "<proto> <status>\n" */
  function StatusLine(r: Response): Bytes
  {
    r.proto + [SP] + r.status + [LF]
  }

  /** The status line followed by the whitelisted header lines. */
  function HeaderPart(r: Response, onlyHeaders: bool): Bytes
  {
    StatusLine(r) + JoinLines(Emitted(r.header, Whitelist, onlyHeaders))
  }

  /** What an `io.LimitedReader` with N = BodyLimit lets through. */
  function BodyPart(body: Bytes): (p: Bytes)
    ensures p <= body
    ensures |p| <= BodyLimit
    ensures |body| <= BodyLimit ==> p == body
    ensures |body| > BodyLimit ==> |p| == BodyLimit
  {
    body[..Min(|body|, BodyLimit)]
  }

  /** The canonical snapshot of `r`. */
  function Minified(r: Response, onlyHeaders: bool): Bytes
  {
    HeaderPart(r, onlyHeaders) + (if onlyHeaders then [] else [LF] + BodyPart(r.body))
  }

  /** The loop of main.go:221-230: appends the line of each written header of `names`, in order. */
  method AppendHeaderLines(b0: Bytes, header: map<Bytes, Bytes>, names: seq<Bytes>, onlyHeaders: bool)
    returns (b: Bytes)
    ensures b == b0 + JoinLines(Emitted(header, names, onlyHeaders))
  {
    b := b0;
    for i := 0 to |names|
      invariant b == b0 + JoinLines(Emitted(header, names[..i], onlyHeaders))
    {
      var name := names[i];
      if onlyHeaders && name == ContentLength {
        LinesSkip(header, names, onlyHeaders, i);
        continue;
      }
      var v := Get(header, name);
      if v != [] {
        LinesTake(b0, header, names, onlyHeaders, i);
        b := b + (name + ColonSpace + v + [LF]);
      } else {
        LinesSkip(header, names, onlyHeaders, i);
      }
    }
    assert names[..|names|] == names;
  }

  /** `minifyResponse`: the status line, the whitelisted header lines, then the limited body. */
  method MinifyResponse(resp: Response, onlyHeaders: bool) returns (b: Bytes)
    ensures b == Minified(resp, onlyHeaders)
  {
    b := resp.proto + [SP] + resp.status + [LF];
    b := AppendHeaderLines(b, resp.header, Whitelist, onlyHeaders);
    if !onlyHeaders {
      b := b + [LF];
      b := b + BodyPart(resp.body);
    }
  }

  lemma EmittedStep(header: map<Bytes, Bytes>, names: seq<Bytes>, onlyHeaders: bool, i: nat)
    requires i < |names|
    ensures Emitted(header, names[..i + 1], onlyHeaders)
         == Emitted(header, names[..i], onlyHeaders)
          + (if Emits(header, names[i], onlyHeaders) then [Field(names[i], Get(header, names[i]))] else [])
  {
    assert names[..i + 1][..i] == names[..i];
  }

  /** A name that is not written adds no line to the header section. */
  lemma LinesSkip(header: map<Bytes, Bytes>, names: seq<Bytes>, onlyHeaders: bool, i: nat)
    requires i < |names| && !Emits(header, names[i], onlyHeaders)
    ensures JoinLines(Emitted(header, names[..i + 1], onlyHeaders)) == JoinLines(Emitted(header, names[..i], onlyHeaders))
  {
    EmittedStep(header, names, onlyHeaders, i);
    assert Emitted(header, names[..i], onlyHeaders) + [] == Emitted(header, names[..i], onlyHeaders);
  }

  /** A written name adds its header line at the end of the header section, after any prefix. */
  lemma LinesTake(prefix: Bytes, header: map<Bytes, Bytes>, names: seq<Bytes>, onlyHeaders: bool, i: nat)
    requires i < |names| && Emits(header, names[i], onlyHeaders)
    ensures prefix + JoinLines(Emitted(header, names[..i + 1], onlyHeaders))
         == prefix + JoinLines(Emitted(header, names[..i], onlyHeaders)) + (names[i] + ColonSpace + Get(header, names[i]) + [LF])
  {
    LinesTakeStep(header, names, onlyHeaders, i);
    Assoc(prefix, JoinLines(Emitted(header, names[..i], onlyHeaders)), names[i] + ColonSpace + Get(header, names[i]) + [LF]);
  }

  /** `LinesTake` without a prefix. */
  lemma LinesTakeStep(header: map<Bytes, Bytes>, names: seq<Bytes>, onlyHeaders: bool, i: nat)
    requires i < |names| && Emits(header, names[i], onlyHeaders)
    ensures JoinLines(Emitted(header, names[..i + 1], onlyHeaders))
         == JoinLines(Emitted(header, names[..i], onlyHeaders)) + (names[i] + ColonSpace + Get(header, names[i]) + [LF])
  {
    EmittedStep(header, names, onlyHeaders, i);
    JoinLinesSnoc(Emitted(header, names[..i], onlyHeaders), Field(names[i], Get(header, names[i])));
  }

  lemma Assoc<T>(a: seq<T>, b: seq<T>, c: seq<T>)
    ensures a + (b + c) == a + b + c
  {
  }

  lemma JoinLinesSnoc(fields: seq<Field>, f: Field)
    ensures JoinLines(fields + [f]) == JoinLines(fields) + HeaderLine(f)
  {
    assert (fields + [f])[..|fields|] == fields;
  }

  /** A header is emitted exactly when it is listed, passes the filter, and carries its value. */
  lemma {:induction false} EmittedExactly(header: map<Bytes, Bytes>, names: seq<Bytes>, onlyHeaders: bool)
    ensures forall f :: f in Emitted(header, names, onlyHeaders) <==>
      f.name in names && Emits(header, f.name, onlyHeaders) && f.value == Get(header, f.name)
    decreases |names|
  {
    if names != [] {
      var init := names[..|names| - 1];
      EmittedExactly(header, init, onlyHeaders);
      assert names == init + [names[|names| - 1]];
    }
  }

  /** Emission follows the list: the headers of an earlier part come before those of a later part. */
  lemma {:induction false} EmittedSplit(header: map<Bytes, Bytes>, a: seq<Bytes>, b: seq<Bytes>, onlyHeaders: bool)
    ensures Emitted(header, a + b, onlyHeaders) == Emitted(header, a, onlyHeaders) + Emitted(header, b, onlyHeaders)
    decreases |b|
  {
    if b == [] {
      assert a + b == a;
    } else {
      var init, name := b[..|b| - 1], b[|b| - 1];
      var last := if Emits(header, name, onlyHeaders) then [Field(name, Get(header, name))] else [];
      EmittedSplit(header, a, init, onlyHeaders);
      assert (a + b)[..|a + b| - 1] == a + init && (a + b)[|a + b| - 1] == name;
      assert Emitted(header, a + b, onlyHeaders) == Emitted(header, a + init, onlyHeaders) + last;
      assert Emitted(header, b, onlyHeaders) == Emitted(header, init, onlyHeaders) + last;
      Assoc(Emitted(header, a, onlyHeaders), Emitted(header, init, onlyHeaders), last);
    }
  }

  lemma {:induction false} JoinLinesSplit(a: seq<Field>, b: seq<Field>)
    ensures JoinLines(a + b) == JoinLines(a) + JoinLines(b)
    decreases |b|
  {
    if b == [] {
      assert a + b == a;
    } else {
      var init := b[..|b| - 1];
      JoinLinesSplit(a, init);
      assert (a + b)[..|a + b| - 1] == a + init;
      assert JoinLines(a + b) == JoinLines(a + init) + HeaderLine(b[|b| - 1]);
      assert JoinLines(b) == JoinLines(init) + HeaderLine(b[|b| - 1]);
    }
  }

  /** The header section around a written header: what precedes it, its line, what follows it. */
  lemma EmittedAround(header: map<Bytes, Bytes>, names: seq<Bytes>, onlyHeaders: bool, i: nat)
    requires i < |names| && Emits(header, names[i], onlyHeaders)
    ensures JoinLines(Emitted(header, names, onlyHeaders))
         == JoinLines(Emitted(header, names[..i], onlyHeaders))
          + HeaderLine(Field(names[i], Get(header, names[i])))
          + JoinLines(Emitted(header, names[i + 1..], onlyHeaders))
  {
    var f := Field(names[i], Get(header, names[i]));
    var pre, one, post := names[..i], [names[i]], names[i + 1..];
    var before, after := Emitted(header, pre, onlyHeaders), Emitted(header, post, onlyHeaders);
    assert names == (pre + one) + post;
    EmittedSplit(header, pre + one, post, onlyHeaders);
    EmittedSplit(header, pre, one, onlyHeaders);
    assert Emitted(header, one, onlyHeaders) == [f] by { assert one[..0] == []; }
    assert Emitted(header, names, onlyHeaders) == (before + [f]) + after;
    JoinLinesSplit(before + [f], after);
    JoinLinesSnoc(before, f);
  }

  /**
   * Whitelist order, whatever the response order: if the i-th and the j-th
   * whitelisted headers (i < j) are both written, the i-th line comes first.
   */
  lemma LinesInListOrder(header: map<Bytes, Bytes>, w: seq<Bytes>, onlyHeaders: bool, i: nat, j: nat)
    requires i < j < |w|
    requires Emits(header, w[i], onlyHeaders) && Emits(header, w[j], onlyHeaders)
    ensures var section := JoinLines(Emitted(header, w, onlyHeaders));
            var li := HeaderLine(Field(w[i], Get(header, w[i])));
            var lj := HeaderLine(Field(w[j], Get(header, w[j])));
            exists p, q :: p + |li| <= q && OccursAt(section, li, p) && OccursAt(section, lj, q)
  {
    var x, y, z := AroundTwo(header, w, onlyHeaders, i, j);
    InOrderAt(JoinLines(Emitted(header, w, onlyHeaders)), x,
              HeaderLine(Field(w[i], Get(header, w[i]))), y,
              HeaderLine(Field(w[j], Get(header, w[j]))), z);
  }

  /** The header section around two written headers i < j. */
  lemma AroundTwo(header: map<Bytes, Bytes>, w: seq<Bytes>, onlyHeaders: bool, i: nat, j: nat)
    returns (x: Bytes, y: Bytes, z: Bytes)
    requires i < j < |w|
    requires Emits(header, w[i], onlyHeaders) && Emits(header, w[j], onlyHeaders)
    ensures JoinLines(Emitted(header, w, onlyHeaders))
         == (x + HeaderLine(Field(w[i], Get(header, w[i]))) + y) + HeaderLine(Field(w[j], Get(header, w[j]))) + z
  {
    var li := HeaderLine(Field(w[i], Get(header, w[i])));
    var lj := HeaderLine(Field(w[j], Get(header, w[j])));
    var front := w[..j];
    EmittedAround(header, w, onlyHeaders, j);
    var head := JoinLines(Emitted(header, front, onlyHeaders));
    z := JoinLines(Emitted(header, w[j + 1..], onlyHeaders));
    assert JoinLines(Emitted(header, w, onlyHeaders)) == head + lj + z;
    assert front[i] == w[i];
    EmittedAround(header, front, onlyHeaders, i);
    x := JoinLines(Emitted(header, front[..i], onlyHeaders));
    y := JoinLines(Emitted(header, front[i + 1..], onlyHeaders));
    assert head == x + li + y;
  }

  /** In `x + li + y + lj + z`, `li` occurs at `|x|` and `lj` after it. */
  lemma InOrderAt(section: Bytes, x: Bytes, li: Bytes, y: Bytes, lj: Bytes, z: Bytes)
    requires section == (x + li + y) + lj + z
    ensures exists p, q :: p + |li| <= q && OccursAt(section, li, p) && OccursAt(section, lj, q)
  {
    OccursInMiddle(x, li, y + lj + z);
    assert section == x + li + (y + lj + z);
    OccursInMiddle(x + li + y, lj, z);
    assert OccursAt(section, li, |x|) && OccursAt(section, lj, |x + li + y|);
  }

  /** The order lemma for the whitelist itself. */
  lemma LinesInWhitelistOrder(header: map<Bytes, Bytes>, onlyHeaders: bool, i: nat, j: nat)
    requires i < j < |Whitelist|
    requires Emits(header, Whitelist[i], onlyHeaders) && Emits(header, Whitelist[j], onlyHeaders)
    ensures var section := JoinLines(Emitted(header, Whitelist, onlyHeaders));
            var li := HeaderLine(Field(Whitelist[i], Get(header, Whitelist[i])));
            var lj := HeaderLine(Field(Whitelist[j], Get(header, Whitelist[j])));
            exists p, q :: p + |li| <= q && OccursAt(section, li, p) && OccursAt(section, lj, q)
  {
    LinesInListOrder(header, Whitelist, onlyHeaders, i, j);
  }

  /** Content-Length is written exactly in full mode and when it is non-empty. */
  lemma ContentLengthOnlyInFullMode(header: map<Bytes, Bytes>, onlyHeaders: bool)
    ensures (exists f :: f in Emitted(header, Whitelist, onlyHeaders) && f.name == ContentLength)
        <==> !onlyHeaders && Get(header, ContentLength) != []
  {
    EmittedExactly(header, Whitelist, onlyHeaders);
    assert Whitelist[1] == ContentLength;
    if !onlyHeaders && Get(header, ContentLength) != [] {
      assert Field(ContentLength, Get(header, ContentLength)) in Emitted(header, Whitelist, onlyHeaders);
    }
  }

  /** Two header maps that agree on `names` emit the same headers for `names`. */
  lemma {:induction false} EmittedDependsOnlyOnNames(h1: map<Bytes, Bytes>, h2: map<Bytes, Bytes>, names: seq<Bytes>, onlyHeaders: bool)
    requires forall n | n in names :: Get(h1, n) == Get(h2, n)
    ensures Emitted(h1, names, onlyHeaders) == Emitted(h2, names, onlyHeaders)
    decreases |names|
  {
    if names != [] {
      var init := names[..|names| - 1];
      assert forall n | n in init :: n in names;
      EmittedDependsOnlyOnNames(h1, h2, init, onlyHeaders);
    }
  }

  /** Headers outside the whitelist never influence the snapshot. */
  lemma MinifiedIgnoresOtherHeaders(r1: Response, r2: Response, onlyHeaders: bool)
    requires r1.proto == r2.proto && r1.status == r2.status && r1.body == r2.body
    requires forall n | n in Whitelist :: Get(r1.header, n) == Get(r2.header, n)
    ensures Minified(r1, onlyHeaders) == Minified(r2, onlyHeaders)
  {
    EmittedDependsOnlyOnNames(r1.header, r2.header, Whitelist, onlyHeaders);
  }

  /** Every snapshot begins with "<proto> <status>\n". */
  lemma StartsWithStatusLine(r: Response, onlyHeaders: bool)
    ensures StatusLine(r) <= Minified(r, onlyHeaders)
    ensures Minified(r, onlyHeaders)[..|StatusLine(r)|] == r.proto + [SP] + r.status + [LF]
  {
  }

  /**
   * Headers-only mode: no Content-Length line, the snapshot ends right after
   * the last header line, and no body byte influences it.
   */
  lemma HeadersOnlyShape(r: Response, otherBody: Bytes)
    ensures Minified(r, true) == StatusLine(r) + JoinLines(Emitted(r.header, Whitelist, true))
    ensures forall f | f in Emitted(r.header, Whitelist, true) :: f.name != ContentLength && f.value != []
    ensures Minified(r.(body := otherBody), true) == Minified(r, true)
  {
    EmittedExactly(r.header, Whitelist, true);
  }

  /**
   * Full mode: the header part, a blank line, then a prefix of the body that
   * is the whole body when it fits and exactly BodyLimit bytes otherwise.
   */
  lemma FullShape(r: Response)
    ensures var body := Minified(r, false)[|HeaderPart(r, false)| + 1..];
            && Minified(r, false)[..|HeaderPart(r, false)| + 1] == HeaderPart(r, false) + [LF]
            && body == r.body[..Min(|r.body|, BodyLimit)]
            && body <= r.body
            && |body| <= BodyLimit
            && (|r.body| <= BodyLimit ==> body == r.body)
  {
  }

  lemma {:induction false} HeadersOnlyLinesShorter(header: map<Bytes, Bytes>, names: seq<Bytes>)
    ensures |JoinLines(Emitted(header, names, true))| <= |JoinLines(Emitted(header, names, false))|
    decreases |names|
  {
    if names != [] {
      var init := names[..|names| - 1];
      var n := names[|names| - 1];
      HeadersOnlyLinesShorter(header, init);
      var f := Field(n, Get(header, n));
      var et, ef := Emitted(header, init, true), Emitted(header, init, false);
      if Emits(header, n, true) {
        assert (et + [f])[..|et|] == et;
        assert (ef + [f])[..|ef|] == ef;
      } else if Emits(header, n, false) {
        assert (ef + [f])[..|ef|] == ef;
        assert et + [] == et;
      } else {
        assert et + [] == et;
        assert ef + [] == ef;
      }
    }
  }

  /**
   * Complete, non-empty lines: every line ends in a line feed and no two line
   * feeds are adjacent, so the text holds no blank line.
   */
  ghost predicate NonEmptyLines(s: Bytes)
  {
    && (s == [] || (s[0] != LF && s[|s| - 1] == LF))
    && forall j | 0 <= j < |s| - 1 :: !(s[j] == LF && s[j + 1] == LF)
  }

  lemma NonEmptyLinesConcat(a: Bytes, b: Bytes)
    requires NonEmptyLines(a) && NonEmptyLines(b)
    ensures NonEmptyLines(a + b)
  {
    var s := a + b;
    forall j | 0 <= j < |s| - 1 ensures !(s[j] == LF && s[j + 1] == LF) {
      if j + 1 < |a| {
        assert s[j] == a[j] && s[j + 1] == a[j + 1];
      } else if j >= |a| {
        assert s[j] == b[j - |a|] && s[j + 1] == b[j + 1 - |a|];
      } else {
        assert s[j + 1] == b[0];
      }
    }
  }

  lemma SingleLine(content: Bytes)
    requires content != [] && LF !in content
    ensures NonEmptyLines(content + [LF])
  {
    var s := content + [LF];
    forall j | 0 <= j < |s| - 1 ensures s[j] != LF {
      assert s[j] == content[j];
    }
  }

  lemma {:induction false} JoinLinesNonEmpty(fields: seq<Field>)
    requires forall f | f in fields :: LF !in f.name && LF !in f.value
    ensures NonEmptyLines(JoinLines(fields))
    decreases |fields|
  {
    if fields != [] {
      var init, f := fields[..|fields| - 1], fields[|fields| - 1];
      assert forall g | g in init :: g in fields;
      JoinLinesNonEmpty(init);
      assert f.name + ColonSpace + f.value + [LF] == (f.name + ColonSpace + f.value) + [LF];
      SingleLine(f.name + ColonSpace + f.value);
      NonEmptyLinesConcat(JoinLines(init), HeaderLine(f));
    }
  }

  lemma WhitelistHasNoLF()
    ensures forall n | n in Whitelist :: LF !in n
  {
    AsciiHasNoLF("Host");
    AsciiHasNoLF("Content-Length");
    AsciiHasNoLF("Content-Type");
    AsciiHasNoLF("Location");
    AsciiHasNoLF("Access-Control-Allow-Origin");
    AsciiHasNoLF("Access-Control-Allow-Methods");
    AsciiHasNoLF("Access-Control-Expose-Headers");
    AsciiHasNoLF("Access-Control-Allow-Credentials");
    AsciiHasNoLF("Allow");
    AsciiHasNoLF("Content-Security-Policy");
    AsciiHasNoLF("Proxy-Authenticate");
    AsciiHasNoLF("Server");
    AsciiHasNoLF("WWW-Authenticate");
    AsciiHasNoLF("X-Frame-Options");
    AsciiHasNoLF("X-Powered-By");
  }

  /** A string without a newline converts to bytes without a line feed. */
  lemma AsciiHasNoLF(s: string)
    requires '\n' !in s
    ensures LF !in Ascii(s)
  {
  }


  /**
   * A response whose protocol, status and header values hold no line feed
   * (as the HTTP parser delivers them) has a header part made of non-empty
   * lines: it ends in a line feed and contains no blank line.
   */
  lemma HeaderPartHasNoBlankLine(r: Response, onlyHeaders: bool)
    requires LF !in r.proto && LF !in r.status
    requires forall n | n in r.header :: LF !in r.header[n]
    ensures var part := HeaderPart(r, onlyHeaders);
            && part != [] && part[|part| - 1] == LF
            && forall j :: !OccursAt(part, [LF, LF], j)
  {
    var fields := Emitted(r.header, Whitelist, onlyHeaders);
    EmittedExactly(r.header, Whitelist, onlyHeaders);
    WhitelistHasNoLF();
    JoinLinesNonEmpty(fields);
    assert r.proto + [SP] + r.status + [LF] == (r.proto + [SP] + r.status) + [LF];
    SingleLine(r.proto + [SP] + r.status);
    NonEmptyLinesConcat(StatusLine(r), JoinLines(fields));
    var part := HeaderPart(r, onlyHeaders);
    forall j ensures !OccursAt(part, [LF, LF], j) {
      if 0 <= j && j + 2 <= |part| {
        assert part[j..j + 2][0] == part[j] && part[j..j + 2][1] == part[j + 1];
      }
    }
  }

  /** The headers-only snapshot of a response is always shorter than its full snapshot. */
  lemma HeadersOnlyShorter(r: Response)
    ensures |Minified(r, true)| < |Minified(r, false)|
  {
    HeadersOnlyLinesShorter(r.header, Whitelist);
  }
}
