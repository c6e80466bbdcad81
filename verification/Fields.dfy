/**
 * What the header lines of a request say, written as characters and without reference to how they are stored: the last
 * line with the name of a field gives its value (src/http.c:193-254, 781-808).
 */
module Fields {
  import opened Bytes
  import opened Numbers
  import opened Requests
  import opened Splitter
  import opened Grammar
  import opened Headers
  import UrlCoding

  /** A name, a colon, blanks and a value, which a NUL can end before the line does. */
  predicate Reads(line: seq<byte>, key: seq<byte>, blanks: seq<byte>, value: seq<byte>, tail: seq<byte>)
  {
    && line == key + [':' as int] + blanks + value + tail
    && ':' as int !in key && NUL !in key
    && (forall i :: 0 <= i < |blanks| ==> blanks[i] == ' ' as int || blanks[i] == '\t' as int)
    && NUL !in value && (value == [] || (value[0] != ' ' as int && value[0] != '\t' as int))
    && (tail == [] || tail[0] == NUL)
  }

  /** The line has a name that is `name` but for its case, and the value `value`. */
  ghost predicate Says(line: seq<byte>, name: string, value: seq<byte>)
  {
    exists key, blanks, tail :: Reads(line, key, blanks, value, tail) && Lower(key) == Ascii(name)
  }

  /** The value that the last line with this name has, or that there is none. */
  ghost predicate LastValue(lines: seq<seq<byte>>, name: string, value: Option<seq<byte>>)
  {
    match value
    case None => forall i, v :: 0 <= i < |lines| ==> !Says(lines[i], name, v)
    case Some(v) =>
      exists i :: 0 <= i < |lines| && Says(lines[i], name, v) && forall j, w :: i < j < |lines| ==> !Says(lines[j], name, w)
  }

  function TextValue(t: Text): Option<seq<byte>> { if t.At? then Some(t.text) else None }

  // ----- One line -----

  lemma Positions(line: seq<byte>, key: seq<byte>, blanks: seq<byte>, rest: seq<byte>)
    requires line == key + [COLON] + blanks + rest
    ensures var v := |key| + 1 + |blanks|;
            && |line| == v + |rest| && line[..|key|] == key && line[|key|] == COLON
            && line[|key| + 1..v] == blanks && line[v..] == rest
  {
  }

  /** Where a line that reads so is cut. */
  lemma ReadsCut(line: seq<byte>, key: seq<byte>, blanks: seq<byte>, value: seq<byte>, tail: seq<byte>)
    requires Reads(line, key, blanks, value, tail)
    ensures var v := |key| + 1 + |blanks|;
            && Find(CString(line), COLON, 0) == |key| < |CString(line)| <= |line|
            && SkipBlanks(line, |key| + 1) == v <= |line|
            && line[..|key|] == key && CString(line[v..]) == value
  {
    hide Find, CString, SkipBlanks;
    var v := |key| + 1 + |blanks|;
    var seen, rest := key + [COLON] + blanks + value, value + tail;
    assert line == seen + tail == key + [COLON] + blanks + rest;
    assert NUL !in seen;
    Ends(seen, tail);
    Ends(value, tail);
    Positions(seen, key, blanks, value);
    Positions(line, key, blanks, rest);
    FindIs(seen, COLON, 0, |key|);
    BlanksEnd(line, blanks, value, tail, |key| + 1);
  }

  lemma BlanksEnd(line: seq<byte>, blanks: seq<byte>, value: seq<byte>, tail: seq<byte>, from: nat)
    requires from + |blanks| <= |line| && line[from..from + |blanks|] == blanks && line[from + |blanks|..] == value + tail
    requires forall i :: 0 <= i < |blanks| ==> blanks[i] == SP || blanks[i] == HT
    requires value == [] || (value[0] != SP && value[0] != HT)
    requires tail == [] || tail[0] == NUL
    ensures SkipBlanks(line, from) == from + |blanks|
  {
    var v := from + |blanks|;
    assert forall k :: from <= k < v ==> line[k] == line[from..v][k - from];
    assert v < |line| ==> line[v] == line[v..][0];
    SkipBlanksIs(line, from, v);
  }

  lemma Ends(text: seq<byte>, tail: seq<byte>)
    requires NUL !in text && (tail == [] || tail[0] == NUL)
    ensures CString(text + tail) == text
  {
    var all := text + tail;
    assert forall k :: 0 <= k < |text| ==> all[k] == text[k];
    FindIs(all, NUL, 0, |text|);
    assert all[..|text|] == text;
  }

  /** A line reads so in one way, exactly if a colon comes before any NUL. */
  lemma LineReads(line: seq<byte>) returns (key: seq<byte>, blanks: seq<byte>, value: seq<byte>, tail: seq<byte>)
    requires Find(CString(line), COLON, 0) < |CString(line)|
    ensures Reads(line, key, blanks, value, tail)
  {
    hide Find, CString, SkipBlanks;
    var c := Find(CString(line), COLON, 0);
    var v := SkipBlanks(line, c + 1);
    var rest := line[v..];
    key, blanks, value := line[..c], line[c + 1..v], CString(rest);
    tail := rest[|value|..];
    assert key == CString(line)[..c];
    assert line[c] == CString(line)[c] == COLON;
    RestOfCString(rest);
    assert value != [] ==> value[0] == line[v];
    InPieces(line, c, v);
    JoinLast(key + [COLON] + blanks, value, tail);
  }

  lemma InPieces(line: seq<byte>, c: nat, v: nat)
    requires c < v <= |line|
    ensures line == line[..c] + [line[c]] + line[c + 1..v] + line[v..]
  {
  }

  lemma JoinLast(a: seq<byte>, b: seq<byte>, c: seq<byte>)
    ensures a + (b + c) == a + b + c
  {
  }

  lemma RestOfCString(t: seq<byte>)
    ensures var n := |CString(t)|; t == CString(t) + t[n..] && (t[n..] == [] || t[n..][0] == NUL)
  {
  }

  /** A field of a response prints as a line that says it. */
  lemma PrintedFieldSays(f: HeaderField, name: string)
    requires Lower(f.key) == Ascii(name) && ':' as int !in f.key && NUL !in f.key && NUL !in f.value
    requires f.value == [] || (f.value[0] != ' ' as int && f.value[0] != '\t' as int)
    ensures var line := f.key + Ascii(": ") + f.value;
            PrintField(f) == line + Ascii("\r\n") && Says(line, name, f.value)
  {
    hide Lower;
    AsciiIs(": ", COLON_SPACE);
    AsciiIs("\r\n", CRLF);
    var line := f.key + COLON_SPACE + f.value;
    assert COLON_SPACE == [':' as int] + [' ' as int];
    assert line == f.key + [':' as int] + [' ' as int] + f.value + [];
    assert Reads(line, f.key, [' ' as int], f.value, []);
  }

  /** The name of a known field. */
  function NameOf(f: Field): string
  {
    match f
    case Cookie => "cookie"
    case Range => "range"
    case IfModifiedSince => "if-modified-since"
    case ContentLength => "content-length"
    case ContentType => "content-type"
    case ContentDisposition => "content-disposition"
  }

  /** Where its text is kept. */
  function TextOf(f: Field, q: Request): Text
  {
    match f
    case Cookie => q.cookies
    case Range => q.range
    case IfModifiedSince => q.modifiedSince
    case ContentLength => Absent
    case ContentType => q.mimetype
    case ContentDisposition => q.disposition
  }

  /** The table leads from a name to its field. */
  lemma NameIsFound(key: seq<byte>, f: Field)
    ensures Lower(key) == Ascii(NameOf(f)) <==>
            MatchHeader(key, 0) < |HEADERS| && HEADERS[MatchHeader(key, 0)].1 == f
  {
    hide MatchHeader;
    FieldsByName();
    var i := match f
      case Cookie => 0 case Range => 1 case IfModifiedSince => 2
      case ContentLength => 3 case ContentType => 4 case ContentDisposition => 5;
    assert HEADERS[i] == (Ascii(NameOf(f)), f);
    if Lower(key) == Ascii(NameOf(f)) {
      LowerOf(key, i);
    }
  }

  /** What one line makes of a text field that it names, and of all others. */
  lemma LineSays(line: seq<byte>, at: nat, q: Request, f: Field)
    requires ProcessHeader(line, at, q).Kept?
    ensures var q' := ProcessHeader(line, at, q).req;
            && (forall v :: Says(line, NameOf(f), v) ==>
                  if f.ContentLength? then IsNumber(v) && q'.contentLen == ReadLong(v).value >= 0
                  else TextValue(TextOf(f, q')) == Some(v))
            && ((forall v :: !Says(line, NameOf(f), v)) ==>
                  TextOf(f, q') == TextOf(f, q) && (f.ContentLength? ==> q'.contentLen == q.contentLen))
  {
    hide MatchHeader, CString, IsNumber, ReadLong, Reads, Lower, SkipBlanks, Find, Ascii, NameOf, TextOf, StoreField;
    var key, blanks, value, tail := LineReads(line);
    ReadsCut(line, key, blanks, value, tail);
    NameIsFound(key, f);
    SaysOnly(line, NameOf(f), key, blanks, value, tail);
    var h := MatchHeader(key, 0);
    assert Says(line, NameOf(f), value) <==> Lower(key) == Ascii(NameOf(f));
    if h < |HEADERS| {
      var v := At(at + (|key| + 1 + |blanks|), value);
      assert ProcessHeader(line, at, q) == StoreField(HEADERS[h].1, v, q);
      FieldIsStored(HEADERS[h].1, v, q, f);
    }
  }

  /** What a line says is what it reads. */
  lemma SaysOnly(line: seq<byte>, name: string, key: seq<byte>, blanks: seq<byte>, value: seq<byte>, tail: seq<byte>)
    requires Reads(line, key, blanks, value, tail)
    ensures forall v :: Says(line, name, v) <==> v == value && Lower(key) == Ascii(name)
  {
    hide CString, Reads, Lower, SkipBlanks, Find, Ascii;
    ReadsCut(line, key, blanks, value, tail);
    forall v | Says(line, name, v)
      ensures v == value && Lower(key) == Ascii(name)
    {
      var key', blanks', tail' :| Reads(line, key', blanks', v, tail') && Lower(key') == Ascii(name);
      ReadsCut(line, key', blanks', v, tail');
    }
  }

  lemma FieldIsStored(field: Field, value: Text, q: Request, f: Field)
    requires value.At? && StoreField(field, value, q).Kept?
    ensures var q' := StoreField(field, value, q).req;
            && (field == f ==>
                  if f.ContentLength? then IsNumber(value.text) && q'.contentLen == ReadLong(value.text).value >= 0
                  else TextOf(f, q') == value)
            && (field != f ==> TextOf(f, q') == TextOf(f, q) && (f.ContentLength? ==> q'.contentLen == q.contentLen))
  {
    hide IsNumber, ReadLong;
  }

  /** A line with a name; if it gives a length, that is a number and not negative. */
  ghost predicate GoodLine(line: seq<byte>)
  {
    && (exists key, blanks, value, tail :: Reads(line, key, blanks, value, tail))
    && (forall v :: Says(line, "content-length", v) ==> IsNumber(v) && ReadLong(v).value >= 0)
  }

  /** A line is accepted exactly if it has a name, and a length that it gives is a number and not negative. */
  lemma LineIsKeptIff(line: seq<byte>, at: nat, q: Request)
    ensures ProcessHeader(line, at, q).Kept? <==> GoodLine(line)
  {
    hide MatchHeader, CString, IsNumber, ReadLong, Reads, Lower, SkipBlanks, Find, Ascii;
    if Find(CString(line), COLON, 0) < |CString(line)| {
      var key, blanks, value, tail := LineReads(line);
      ReadsCut(line, key, blanks, value, tail);
      NameIsFound(key, ContentLength);
      SaysOnly(line, "content-length", key, blanks, value, tail);
    } else if key, blanks, value, tail :| Reads(line, key, blanks, value, tail) {
      ReadsCut(line, key, blanks, value, tail);
    }
  }

  // ----- All lines -----

  lemma LastValueCons(line: seq<byte>, rest: seq<seq<byte>>, name: string, later: Option<seq<byte>>)
    requires LastValue(rest, name, later)
    ensures later.Some? ==> LastValue([line] + rest, name, later)
    ensures later.None? ==> forall v :: Says(line, name, v) ==> LastValue([line] + rest, name, Some(v))
    ensures later.None? && (forall v :: !Says(line, name, v)) ==> LastValue([line] + rest, name, None)
  {
    hide Says;
    var all := [line] + rest;
    assert all[0] == line && forall i :: 0 <= i < |rest| ==> all[i + 1] == rest[i];
    if later.Some? {
      var i :| 0 <= i < |rest| && Says(rest[i], name, later.value) && forall j, w :: i < j < |rest| ==> !Says(rest[j], name, w);
      assert Says(all[i + 1], name, later.value);
      forall j, w | i + 1 < j < |all|
        ensures !Says(all[j], name, w)
      {
        assert all[j] == rest[j - 1];
      }
    } else {
      forall j, w | 0 < j < |all|
        ensures !Says(all[j], name, w)
      {
        assert all[j] == rest[j - 1];
      }
    }
  }

  /** Each field has the value of the last line with its name, or what it had before. */
  lemma {:induction false} LinesSay(lines: seq<seq<byte>>, at: nat, q: Request, f: Field) returns (last: Option<seq<byte>>)
    requires BuildLines(lines, at, q).Kept?
    ensures LastValue(lines, NameOf(f), last)
    ensures var q' := BuildLines(lines, at, q).req;
            if last.None? then TextOf(f, q') == TextOf(f, q) && (f.ContentLength? ==> q'.contentLen == q.contentLen)
            else if f.ContentLength? then IsNumber(last.value) && q'.contentLen == ReadLong(last.value).value >= 0
            else TextValue(TextOf(f, q')) == last
    decreases |lines|
  {
    hide ProcessHeader, Says, IsNumber, ReadLong, LastValue, NameOf;
    if lines == [] {
      NothingSaid(NameOf(f));
      last := None;
    } else {
      var kept := ProcessHeader(lines[0], at, q).req;
      last := LinesSay(lines[1..], at + |lines[0]| + 2, kept, f);
      LineSays(lines[0], at, q, f);
      LastValueCons(lines[0], lines[1..], NameOf(f), last);
      assert [lines[0]] + lines[1..] == lines;
      if last.None? {
        if v :| Says(lines[0], NameOf(f), v) {
          last := Some(v);
        }
      }
    }
  }

  lemma NothingSaid(name: string)
    ensures LastValue([], name, None)
  {
  }

  /** The lines of a head are accepted exactly if each has a name, and the lengths are numbers and not negative. */
  lemma {:induction false} LinesAreKeptIff(lines: seq<seq<byte>>, at: nat, q: Request)
    ensures BuildLines(lines, at, q).Kept? <==>
            forall i :: 0 <= i < |lines| ==> GoodLine(lines[i])
    decreases |lines|
  {
    hide ProcessHeader, GoodLine;
    if lines != [] {
      LineIsKeptIff(lines[0], at, q);
      if ProcessHeader(lines[0], at, q).Kept? {
        LinesAreKeptIff(lines[1..], at + |lines[0]| + 2, ProcessHeader(lines[0], at, q).req);
        assert forall i :: 0 <= i < |lines| - 1 ==> lines[1..][i] == lines[i + 1];
        assert lines == [lines[0]] + lines[1..];
      }
    }
  }

  // ----- Whole heads -----

  lemma {:induction false} LinesKeepTheRest(lines: seq<seq<byte>>, at: nat, q: Request)
    ensures var q' := BuildLines(lines, at, q).req;
            q'.verb == q.verb && q'.version == q.version && q'.path == q.path && q'.query == q.query
    decreases |lines|
  {
    hide MatchHeader, SkipBlanks, IsNumber, ReadLong;
    if lines != [] && ProcessHeader(lines[0], at, q).Kept? {
      LinesKeepTheRest(lines[1..], at + |lines[0]| + 2, ProcessHeader(lines[0], at, q).req);
    }
  }

  /** The target up to its first question mark is the path, what follows it the query; each is decoded by itself. */
  ghost predicate TargetSays(target: seq<byte>, q: Request)
  {
    || ('?' as int !in target && TextValue(q.path) == Some(CString(UrlCoding.Decode(target))) && q.query == Absent)
    || exists path: seq<byte>, query: seq<byte> ::
         && target == path + ['?' as int] + query && '?' as int !in path
         && TextValue(q.path) == Some(CString(UrlCoding.Decode(path)))
         && TextValue(q.query) == Some(CString(UrlCoding.Decode(query)))
  }

  lemma TargetIsSplit(target: seq<byte>, at: nat, q: Request)
    requires q.query == Absent
    ensures TargetSays(target, SplitTarget(target, at, q))
  {
    hide UrlCoding.Decode, CString, Find;
    var s := Find(target, QUESTION, 0);
    if s == |target| {
      SplitWithoutQuestion(target, at, q);
    } else {
      assert target == target[..s] + [QUESTION] + target[s + 1..];
    }
  }

  /**
   * What an accepted request says: it begins with a head whose method and version are written out, whose target gives
   * path and query, and whose lines give each field the value of the last one with its name; a length is a number.
   */
  ghost predicate HeadSays(h: Head, q: Request)
  {
    && MethodOf(h.token) == Some(q.verb) && VersionOf(h.version) == Some(q.version) && TargetSays(h.target, q)
    && LastValue(h.lines, "cookie", TextValue(q.cookies))
    && LastValue(h.lines, "range", TextValue(q.range))
    && LastValue(h.lines, "if-modified-since", TextValue(q.modifiedSince))
    && LastValue(h.lines, "content-type", TextValue(q.mimetype))
    && LastValue(h.lines, "content-disposition", TextValue(q.disposition))
    && LengthSays(h.lines, q.contentLen)
  }

  /** Without a line for it the length is 0. */
  ghost predicate LengthSays(lines: seq<seq<byte>>, length: int)
  {
    || (LastValue(lines, "content-length", None) && length == 0)
    || exists v :: LastValue(lines, "content-length", Some(v)) && IsNumber(v) && length == ReadLong(v).value >= 0
  }

  lemma HeadHoldsWhatItSays(h: Head, q: Request)
    requires Holds(h, q)
    ensures HeadSays(h, q)
  {
    hide MethodOf, VersionOf, SplitTarget, BuildLines, LastValue, IsNumber, ReadLong, AttemptedTraversal, TargetSays, Find;
    var q0, at := BuildLine(h), |RequestLine(h)|;
    LineIsBlank(h);
    LinesKeepTheRest(h.lines, at, q0);
    TargetStays(h.target, q0, q);
    var cookies := LinesSay(h.lines, at, q0, Cookie);
    var range := LinesSay(h.lines, at, q0, Range);
    var since := LinesSay(h.lines, at, q0, IfModifiedSince);
    var mime := LinesSay(h.lines, at, q0, ContentType);
    var disposition := LinesSay(h.lines, at, q0, ContentDisposition);
    var length := LinesSay(h.lines, at, q0, ContentLength);
    if length.Some? {
      assert LastValue(h.lines, "content-length", Some(length.value));
    }
  }

  lemma LineIsBlank(h: Head)
    requires MethodOf(h.token).Some? && VersionOf(h.version).Some?
    ensures var q := BuildLine(h);
            && MethodOf(h.token) == Some(q.verb) && VersionOf(h.version) == Some(q.version) && TargetSays(h.target, q)
            && q.cookies == q.range == q.modifiedSince == q.mimetype == q.disposition == Absent && q.contentLen == 0
  {
    hide MethodOf, VersionOf, Find;
    var q := BLANK.(verb := MethodOf(h.token).value);
    TargetIsSplit(h.target, |h.token| + 1, q);
    TargetStays(h.target, SplitTarget(h.target, |h.token| + 1, q), BuildLine(h));
  }

  lemma TargetStays(target: seq<byte>, q: Request, q': Request)
    requires q'.path == q.path && q'.query == q.query && TargetSays(target, q)
    ensures TargetSays(target, q')
  {
  }

  /** Every accepted request begins with a head that says it. */
  lemma AcceptedRequestSays(b: seq<byte>, q: Request, n: nat) returns (h: Head)
    requires Parse(b) == Done(q, n)
    ensures Print(h) <= b && |Print(h)| == n && HeadSays(h, q)
  {
    hide Parse, Holds, Print, HeadSays;
    h := HeadOf(b);
    HeadHoldsWhatItSays(h, q);
  }

  /** A head holds a request exactly if its request line is good, and every line has a name, every length a number. */
  lemma HeadHoldsIff(h: Head)
    ensures (exists q :: Holds(h, q)) <==>
            GoodRequestLine(h) && GoodLines(h.lines) && forall i :: 0 <= i < |h.lines| ==> GoodLine(h.lines[i])
  {
    hide GoodRequestLine, GoodLines, BuildLines, GoodLine;
    if GoodRequestLine(h) {
      GoodLineBuilds(h);
      LinesAreKeptIff(h.lines, |RequestLine(h)|, BuildLine(h));
      if GoodLines(h.lines) && BuildLines(h.lines, |RequestLine(h)|, BuildLine(h)).Kept? {
        assert Holds(h, BuildLines(h.lines, |RequestLine(h)|, BuildLine(h)).req);
      }
    }
  }

  lemma GoodLineBuilds(h: Head)
    requires GoodRequestLine(h)
    ensures MethodOf(h.token).Some? && VersionOf(h.version).Some?
  {
  }
}
