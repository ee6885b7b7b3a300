/** The label of a copied file or link. */
module UriLabel {
  import opened Prelude
  import opened Percent
  import opened Numbers
  import opened Restore

  const URI_LIST: Bytes := Ascii("text/uri-list")
  const FILE_SCHEME: Bytes := Ascii("file://")

  // ----- the standard library's text functions

  /** The index of the first line feed, or the length. */
  function LineEnd(s: Bytes): (n: nat)
    ensures n <= |s| && (n < |s| ==> s[n] == 10)
  {
    if s == [] || s[0] == 10 then 0 else 1 + LineEnd(s[1..])
  }

  function StripCr(line: Bytes): Bytes {
    if line != [] && line[|line| - 1] == 13 then line[..|line| - 1] else line
  }

  /** `str::lines`: a carriage return is dropped only before a line feed. */
  function Lines(s: Bytes): seq<Bytes>
    decreases |s|
  {
    if s == [] then []
    else if LineEnd(s) == |s| then [s]
    else [StripCr(s[..LineEnd(s)])] + Lines(s[LineEnd(s) + 1..])
  }

  /** Comments and blank lines are not links. */
  function LinkLines(lines: seq<Bytes>): seq<Bytes> {
    if lines == [] then []
    else (if lines[0] != [] && lines[0][0] != 35 then [lines[0]] else []) + LinkLines(lines[1..])
  }

  /** `trim_start_matches`: the prefix is removed as often as it occurs. */
  function TrimStartMatches(s: Bytes, prefix: Bytes): Bytes
    decreases |s|
  {
    if prefix != [] && prefix <= s then TrimStartMatches(s[|prefix|..], prefix) else s
  }

  /** The text between slashes. */
  function Segments(p: Bytes): (r: seq<Bytes>)
    ensures |r| > 0
  {
    if p == [] then [[]]
    else if p[0] == 47 then [[]] + Segments(p[1..])
    else
      var r := Segments(p[1..]);
      [[p[0]] + r[0]] + r[1..]
  }

  function Significant(segments: seq<Bytes>): seq<Bytes> {
    if segments == [] then []
    else (if segments[0] != [] && segments[0] != [46] then [segments[0]] else []) + Significant(segments[1..])
  }

  /** `Path::file_name`: the last component, unless there is none or it is "..". */
  function FileName(p: Bytes): Option<Bytes> {
    var s := Significant(Segments(p));
    if s == [] || s[|s| - 1] == [46, 46] then None else Some(s[|s| - 1])
  }

  // ----- the label

  function NameOf(lossy: Bytes -> Bytes, line: Bytes): Bytes {
    var p := Decode(lossy, TrimStartMatches(line, FILE_SCHEME));
    match FileName(p)
    case Some(name) => name
    case None => p
  }

  function BuildUriLabel(lossy: Bytes -> Bytes, payloads: seq<Payload>): Bytes {
    match FirstMatch(payloads, URI_LIST)
    case None => Ascii("file")
    case Some(data) =>
      var paths := LinkLines(Lines(lossy(data)));
      if |paths| == 0 then Ascii("file")
      else if |paths| == 1 then NameOf(lossy, paths[0])
      else NameOf(lossy, paths[0]) + Ascii(" and ") + Ascii(Decimal(|paths| - 1)) + Ascii(" more")
  }

  // ----- the links built from paths

  /** An absolute, normalised path below the root, by its components. */
  predicate Components(segments: seq<Bytes>) {
    segments != [] && forall i :: 0 <= i < |segments| ==> IsName(segments[i])
  }

  /** A name: not empty, without a slash, and neither "." nor "..". */
  predicate IsName(name: Bytes) {
    name != [] && 47 !in name && name != [46] && name != [46, 46]
  }

  function PathOf(segments: seq<Bytes>): Bytes {
    if segments == [] then [] else [47] + segments[0] + PathOf(segments[1..])
  }

  function Link(path: Bytes): Bytes { FILE_SCHEME + Encode(path) }

  function UriList(paths: seq<seq<Bytes>>): Bytes {
    if paths == [] then [] else Link(PathOf(paths[0])) + [13, 10] + UriList(paths[1..])
  }

  // ----- the last component

  lemma SegmentsCons(b: Byte, s: Bytes)
    ensures Segments([b] + s) ==
            if b == 47 then [[]] + Segments(s) else [[b] + Segments(s)[0]] + Segments(s)[1..]
  {
    assert ([b] + s)[1..] == s;
  }

  lemma {:induction false} SegmentsOfJoined(a: Bytes, b: Bytes)
    ensures Segments(a + [47] + b) == Segments(a) + Segments(b)
  {
    if a == [] {
      assert a + [47] + b == [47] + b;
      SegmentsCons(47, b);
    } else {
      SegmentsOfJoined(a[1..], b);
      SegmentsCons(a[0], a[1..]);
      SegmentsCons(a[0], a[1..] + [47] + b);
      assert a == [a[0]] + a[1..] && a + [47] + b == [a[0]] + (a[1..] + [47] + b);
      HeadOfJoined(a[0], Segments(a[1..]), Segments(b));
    }
  }

  lemma HeadOfJoined(b: Byte, x: seq<Bytes>, y: seq<Bytes>)
    requires x != []
    ensures [[b] + (x + y)[0]] + (x + y)[1..] == [[b] + x[0]] + x[1..] + y
    ensures [[]] + (x + y) == [[]] + x + y
  {
  }

  lemma {:induction false} SegmentsOfName(name: Bytes)
    requires 47 !in name
    ensures Segments(name) == [name]
  {
    if name != [] {
      SegmentsOfName(name[1..]);
      assert [name[0]] + name[1..] == name;
    }
  }

  lemma {:induction false} SignificantAppend(a: seq<Bytes>, b: seq<Bytes>)
    ensures Significant(a + b) == Significant(a) + Significant(b)
  {
    if a == [] {
      assert a + b == b;
    } else {
      assert (a + b)[1..] == a[1..] + b;
      SignificantAppend(a[1..], b);
    }
  }

  lemma SignificantName(name: Bytes)
    requires name != [] && name != [46]
    ensures Significant([name]) == [name]
  {
    assert [name][1..] == [];
  }

  lemma InsignificantName(name: Bytes)
    requires name == [] || name == [46]
    ensures Significant([name]) == []
  {
    assert [name][1..] == [];
  }

  /** After any directory, the last name is the file name; a name alone is its own. */
  lemma FileNameIs(dir: Bytes, name: Bytes)
    requires IsName(name)
    ensures FileName(dir + [47] + name) == Some(name) == FileName(name)
  {
    SegmentsOfJoined(dir, name);
    SegmentsOfName(name);
    SignificantAppend(Segments(dir), [name]);
    SignificantName(name);
  }

  /** A slash at the end, and a dot after one, do not matter. */
  lemma FileNameIgnoresEnd(p: Bytes)
    ensures FileName(p + [47]) == FileName(p) == FileName(p + [47, 46])
  {
    SegmentsOfJoined(p, []);
    SegmentsOfJoined(p, [46]);
    SegmentsOfName([]);
    SegmentsOfName([46]);
    SignificantAppend(Segments(p), [[]]);
    SignificantAppend(Segments(p), [[46]]);
    assert p + [47] + [] == p + [47] && p + [47] + [46] == p + [47, 46];
    InsignificantName([]);
    InsignificantName([46]);
  }

  /** The parent of something, the root, and nothing have no file name. */
  lemma NoFileName(p: Bytes)
    ensures FileName(p + [47, 46, 46]) == FileName([46, 46]) == FileName([47]) == FileName([]) == None
  {
    SegmentsOfJoined(p, [46, 46]);
    SegmentsOfName([46, 46]);
    SignificantAppend(Segments(p), [[46, 46]]);
    SignificantName([46, 46]);
    assert p + [47] + [46, 46] == p + [47, 46, 46];
    SegmentsOfJoined([], []);
    SegmentsOfName([]);
    SignificantAppend([[]], [[]]);
    InsignificantName([]);
    assert [] + [47] + [] == [47];
  }

  lemma {:induction false} PathOfAppend(a: seq<Bytes>, b: seq<Bytes>)
    ensures PathOf(a + b) == PathOf(a) + PathOf(b)
  {
    if a == [] {
      assert a + b == b;
    } else {
      assert (a + b)[1..] == a[1..] + b;
      PathOfAppend(a[1..], b);
    }
  }

  lemma PathOfOne(name: Bytes)
    ensures PathOf([name]) == [47] + name
  {
    assert [name][1..] == [];
    assert [47] + name + PathOf([name][1..]) == [47] + name;
  }

  lemma FileNameOfPath(segments: seq<Bytes>)
    requires Components(segments)
    ensures FileName(PathOf(segments)) == Some(segments[|segments| - 1])
  {
    var front, name := segments[..|segments| - 1], segments[|segments| - 1];
    LastOfPath(segments);
    FileNameAfter(PathOf(segments), PathOf(front), name);
  }

  lemma LastOfPath(segments: seq<Bytes>)
    requires segments != []
    ensures PathOf(segments) == PathOf(segments[..|segments| - 1]) + [47] + segments[|segments| - 1]
  {
    PathOfLast(segments[..|segments| - 1], segments[|segments| - 1]);
    assert segments == segments[..|segments| - 1] + [segments[|segments| - 1]];
  }

  lemma FileNameAfter(p: Bytes, dir: Bytes, name: Bytes)
    requires IsName(name) && p == dir + [47] + name
    ensures FileName(p) == Some(name)
  {
    FileNameIs(dir, name);
  }

  lemma PathOfLast(front: seq<Bytes>, name: Bytes)
    ensures PathOf(front + [name]) == PathOf(front) + [47] + name
  {
    PathOfAppend(front, [name]);
    PathOfOne(name);
    assert PathOf(front) + ([47] + name) == PathOf(front) + [47] + name;
  }

  // ----- any text, by its lines

  predicate OneLine(s: Bytes) { 10 !in s }

  /** A line with its terminator: a line feed, or a carriage return and a line feed. */
  datatype Line = Line(text: Bytes, crlf: bool) {
    predicate Valid() { OneLine(text) && (!crlf && text != [] ==> text[|text| - 1] != 13) }

    function Written(): Bytes { text + (if crlf then [13, 10] else [10]) }
  }

  /** Terminated lines, and what stands after the last of them. */
  function TextOf(lines: seq<Line>, rest: Bytes): Bytes {
    if lines == [] then rest else lines[0].Written() + TextOf(lines[1..], rest)
  }

  predicate AllValid(lines: seq<Line>) {
    forall i :: 0 <= i < |lines| ==> lines[i].Valid()
  }

  function Texts(lines: seq<Line>): (r: seq<Bytes>)
    ensures |r| == |lines| && forall i :: 0 <= i < |lines| ==> r[i] == lines[i].text
  {
    seq(|lines|, i requires 0 <= i < |lines| => lines[i].text)
  }

  /** The lines of such a text, the unterminated last one included if it is not empty. */
  function AllLines(lines: seq<Line>, rest: Bytes): seq<Bytes> {
    Texts(lines) + (if rest == [] then [] else [rest])
  }

  lemma {:induction false} LineEndIs(line: Bytes, rest: Bytes)
    requires OneLine(line)
    ensures LineEnd(line + [10] + rest) == |line| == LineEnd(line)
  {
    if line == [] {
      assert line + [10] + rest == [10] + rest;
    } else {
      assert line[0] in line;
      assert (line + [10] + rest)[1..] == line[1..] + [10] + rest;
      LineEndIs(line[1..], rest);
    }
  }

  lemma FirstLine(line: Line, rest: Bytes)
    requires line.Valid()
    ensures Lines(line.Written() + rest) == [line.text] + Lines(rest)
  {
    var s := line.Written() + rest;
    var upTo := if line.crlf then line.text + [13] else line.text;
    assert s == upTo + [10] + rest;
    LineEndIs(upTo, rest);
    assert s[..|upTo|] == upTo && s[|upTo| + 1..] == rest;
    if line.crlf {
      assert upTo[..|upTo| - 1] == line.text;
    }
  }

  lemma LinesCons(line: Line, more: seq<Line>, rest: Bytes)
    ensures AllLines([line] + more, rest) == [line.text] + AllLines(more, rest)
    ensures TextOf([line] + more, rest) == line.Written() + TextOf(more, rest)
  {
    assert Texts([line] + more) == [line.text] + Texts(more);
    assert ([line] + more)[1..] == more;
  }

  /** Lines end in a line feed, with or without a carriage return before it; the last need not end. */
  lemma {:induction false} LinesOfText(lines: seq<Line>, rest: Bytes)
    requires AllValid(lines) && OneLine(rest)
    ensures Lines(TextOf(lines, rest)) == AllLines(lines, rest)
  {
    if lines == [] {
      LineEndIs(rest, []);
      assert Texts(lines) == [];
    } else {
      assert forall i :: 0 <= i < |lines[1..]| ==> lines[1..][i] == lines[i + 1];
      LinesOfText(lines[1..], rest);
      FirstLine(lines[0], TextOf(lines[1..], rest));
      LinesCons(lines[0], lines[1..], rest);
      assert lines == [lines[0]] + lines[1..];
    }
  }

  /** Every text is made of such lines, so this says what the lines of any text are. */
  lemma {:induction false} TextHasLines(s: Bytes) returns (lines: seq<Line>, rest: Bytes)
    ensures AllValid(lines) && OneLine(rest) && s == TextOf(lines, rest)
    decreases |s|
  {
    var n := LineEnd(s);
    NoneBeforeLineEnd(s);
    if n == |s| {
      lines, rest := [], s;
      assert s[..n] == s;
    } else {
      var more;
      more, rest := TextHasLines(s[n + 1..]);
      var ended := s[..n];
      var crlf := ended != [] && ended[n - 1] == 13;
      var line := Line(if crlf then ended[..n - 1] else ended, crlf);
      lines := [line] + more;
      assert lines[1..] == more && s == line.Written() + s[n + 1..];
    }
  }

  lemma {:induction false} NoneBeforeLineEnd(s: Bytes)
    ensures OneLine(s[..LineEnd(s)])
  {
    if s != [] && s[0] != 10 {
      NoneBeforeLineEnd(s[1..]);
      assert s[..LineEnd(s)] == [s[0]] + s[1..][..LineEnd(s[1..])];
    }
  }

  // ----- reading the links back

  /** Links are plain visible characters. */
  predicate Plain(s: Bytes) {
    forall i :: 0 <= i < |s| ==> 33 <= s[i] < 127
  }

  lemma LinkIsPlain(path: Bytes)
    ensures Plain(Link(path)) && |Link(path)| >= 7 && Link(path)[0] == 102
  {
    EncodeIsUriPath(path);
    assert FILE_SCHEME == [102, 105, 108, 101, 58, 47, 47];
    forall i | 0 <= i < |Link(path)| ensures 33 <= Link(path)[i] < 127 {
      if i >= 7 {
        assert Link(path)[i] == Encode(path)[i - 7];
      }
    }
  }

  /** A blank line or a comment. */
  predicate NoLink(line: Bytes) { line == [] || line[0] == '#' as int }

  /** The links, in this order, with blank lines and comments anywhere. */
  predicate Interspersed(lines: seq<Bytes>, links: seq<Bytes>) {
    if lines == [] then links == []
    else if NoLink(lines[0]) then Interspersed(lines[1..], links)
    else links != [] && lines[0] == links[0] && Interspersed(lines[1..], links[1..])
  }

  function Links(paths: seq<seq<Bytes>>): (r: seq<Bytes>)
    ensures |r| == |paths|
  {
    if paths == [] then [] else [Link(PathOf(paths[0]))] + Links(paths[1..])
  }

  lemma {:induction false} LinkLinesOfInterspersed(lines: seq<Bytes>, links: seq<Bytes>)
    requires Interspersed(lines, links)
    ensures LinkLines(lines) == links
  {
    if lines == [] {
    } else if NoLink(lines[0]) {
      LinkLinesOfInterspersed(lines[1..], links);
    } else {
      LinkLinesOfInterspersed(lines[1..], links[1..]);
    }
  }

  lemma TrimOfLink(path: Bytes)
    requires path != [] && path[0] == 47
    ensures TrimStartMatches(Link(path), FILE_SCHEME) == Encode(path)
  {
    assert FILE_SCHEME == [102, 105, 108, 101, 58, 47, 47];
    assert Link(path)[7..] == Encode(path) && FILE_SCHEME <= Link(path);
    assert Encode(path) == EncodeByte(47) + Encode(path[1..]);
    assert Encode(path)[0] == 47;
    assert !(FILE_SCHEME <= Encode(path));
  }

  /** The scheme is dropped as often as it is repeated, and only at the front. */
  lemma SchemeIsDropped(s: Bytes)
    ensures TrimStartMatches(FILE_SCHEME + s, FILE_SCHEME) == TrimStartMatches(s, FILE_SCHEME)
    ensures !BeginsWith(s, "file://") ==> TrimStartMatches(s, FILE_SCHEME) == s
  {
    AsciiReads(s, "file://");
    assert (FILE_SCHEME + s)[|FILE_SCHEME|..] == s;
  }

  lemma NameOfLink(lossy: Bytes -> Bytes, segments: seq<Bytes>)
    requires KeepsUtf8(lossy) && Components(segments) && IsUtf8(PathOf(segments))
    ensures NameOf(lossy, Link(PathOf(segments))) == segments[|segments| - 1]
  {
    TrimOfLink(PathOf(segments));
    DecodeInvertsEncode(lossy, PathOf(segments));
    FileNameOfPath(segments);
  }

  /** A link of another kind, written without escapes, is named by what follows its last slash. */
  lemma NameOfWebLink(lossy: Bytes -> Bytes, dir: Bytes, name: Bytes)
    requires KeepsUtf8(lossy) && IsUtf8(dir + [47] + name) && IsName(name)
    requires !BeginsWith(dir + [47] + name, "file://") && 37 !in dir && 37 !in name
    ensures NameOf(lossy, dir + [47] + name) == name
  {
    SchemeIsDropped(dir + [47] + name);
    NoEscapes(dir + [47] + name);
    FileNameIs(dir, name);
  }

  lemma {:induction false} NoEscapes(s: Bytes)
    requires 37 !in s
    ensures DecodeBytes(s) == s
  {
    if s != [] {
      NoEscapes(s[1..]);
    }
  }

  /** What has no file name is shown whole. */
  lemma NameOfNameless(lossy: Bytes -> Bytes, path: Bytes)
    requires KeepsUtf8(lossy) && IsUtf8(path) && path != [] && path[0] == 47 && FileName(path).None?
    ensures NameOf(lossy, Link(path)) == path
  {
    TrimOfLink(path);
    DecodeInvertsEncode(lossy, path);
  }

  /** The label for `count` links of which the first is named `first`. */
  function LabelFor(first: Bytes, count: nat): Bytes {
    match count
    case 0 => Ascii("file")
    case 1 => first
    case _ => first + Ascii(" and ") + Ascii(Decimal(count - 1)) + Ascii(" more")
  }

  /** The label of a text with links, ended by line feeds with or without carriage returns, the last
      perhaps not at all, and with blank lines and comments anywhere: the first link's name and how many
      more there are. */
  lemma LabelOfLinks(lossy: Bytes -> Bytes, payloads: seq<Payload>, lines: seq<Line>, rest: Bytes,
                     links: seq<Bytes>)
    requires KeepsUtf8(lossy) && AllValid(lines) && OneLine(rest) && IsUtf8(TextOf(lines, rest))
    requires FirstMatch(payloads, URI_LIST) == Some(TextOf(lines, rest))
    requires Interspersed(AllLines(lines, rest), links)
    ensures BuildUriLabel(lossy, payloads)
         == LabelFor(if links == [] then [] else NameOf(lossy, links[0]), |links|)
  {
    LinesOfText(lines, rest);
    LinkLinesOfInterspersed(AllLines(lines, rest), links);
  }

  /** Of links to paths, that name is the first path's last component, whatever characters it contains. */
  lemma LabelOfText(lossy: Bytes -> Bytes, payloads: seq<Payload>, lines: seq<Line>, rest: Bytes,
                    paths: seq<seq<Bytes>>)
    requires KeepsUtf8(lossy) && AllValid(lines) && OneLine(rest) && IsUtf8(TextOf(lines, rest))
    requires FirstMatch(payloads, URI_LIST) == Some(TextOf(lines, rest))
    requires Interspersed(AllLines(lines, rest), Links(paths)) && paths != []
    requires Components(paths[0]) && IsUtf8(PathOf(paths[0]))
    ensures BuildUriLabel(lossy, payloads) == LabelFor(paths[0][|paths[0]| - 1], |paths|)
  {
    LabelOfLinks(lossy, payloads, lines, rest, Links(paths));
    NameOfLink(lossy, paths[0]);
  }

  /** Without such a type there is nothing to read a name from. */
  lemma LabelWithoutLinks(lossy: Bytes -> Bytes, payloads: seq<Payload>)
    requires forall p :: p in payloads ==> !Reads(p.mime, "text/uri-list")
    ensures BuildUriLabel(lossy, payloads) == Ascii("file")
  {
    AsciiReads(URI_LIST, "text/uri-list");
    forall p | p in payloads ensures p.mime != URI_LIST {
    }
    NoFirstMatch(payloads, URI_LIST);
  }

  lemma {:induction false} NoFirstMatch(payloads: seq<Payload>, mime: Bytes)
    requires forall p :: p in payloads ==> p.mime != mime
    ensures FirstMatch(payloads, mime) == None
  {
    if payloads != [] {
      assert payloads[0] in payloads && forall p :: p in payloads[1..] ==> p in payloads;
      NoFirstMatch(payloads[1..], mime);
    }
  }

  // ----- the lists the daemon itself writes

  /** Each link with a carriage return and a line feed. */
  function LinkTexts(paths: seq<seq<Bytes>>): (r: seq<Line>)
    ensures |r| == |paths|
  {
    if paths == [] then [] else [Line(Link(PathOf(paths[0])), true)] + LinkTexts(paths[1..])
  }

  lemma {:induction false} UriListIsText(paths: seq<seq<Bytes>>)
    ensures UriList(paths) == TextOf(LinkTexts(paths), []) && AllValid(LinkTexts(paths))
    ensures forall i :: 0 <= i < |UriList(paths)| ==> UriList(paths)[i] < 128
  {
    if paths != [] {
      LinkIsPlain(PathOf(paths[0]));
      UriListIsText(paths[1..]);
      assert LinkTexts(paths)[1..] == LinkTexts(paths[1..]);
    }
  }

  lemma {:induction false} TextsOfLinks(paths: seq<seq<Bytes>>)
    ensures AllLines(LinkTexts(paths), []) == Links(paths) && Interspersed(Links(paths), Links(paths))
  {
    if paths != [] {
      LinkIsPlain(PathOf(paths[0]));
      TextsOfLinks(paths[1..]);
      LinesCons(Line(Link(PathOf(paths[0])), true), LinkTexts(paths[1..]), []);
    } else {
      assert AllLines([], []) == [];
    }
  }

  lemma LinesOfUriList(paths: seq<seq<Bytes>>)
    ensures LinkLines(Lines(UriList(paths))) == Links(paths)
    ensures forall i :: 0 <= i < |UriList(paths)| ==> UriList(paths)[i] < 128
  {
    UriListIsText(paths);
    LinesOfText(LinkTexts(paths), []);
    TextsOfLinks(paths);
    LinkLinesOfInterspersed(Links(paths), Links(paths));
  }

  /** The label of a list of links as the daemon writes it. */
  lemma LabelInvertsLinks(lossy: Bytes -> Bytes, payloads: seq<Payload>, paths: seq<seq<Bytes>>)
    requires KeepsUtf8(lossy) && paths != []
    requires FirstMatch(payloads, URI_LIST) == Some(UriList(paths))
    requires Components(paths[0]) && IsUtf8(PathOf(paths[0]))
    ensures BuildUriLabel(lossy, payloads) == LabelFor(paths[0][|paths[0]| - 1], |paths|)
  {
    UriListIsText(paths);
    AsciiIsUtf8(UriList(paths));
    TextsOfLinks(paths);
    LabelOfText(lossy, payloads, LinkTexts(paths), [], paths);
  }
}
