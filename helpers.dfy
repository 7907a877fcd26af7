/**
 * The text and header helpers of the scraping utilities (utils/helpers.py):
 * clean_text, safe_get_text and get_headers.
 */
module Helpers {
  import opened Wrappers

  // ---------------------------------------------------------------------
  // Character classes of Python's str methods
  // ---------------------------------------------------------------------

  /**
   * The characters at which str.splitlines breaks: \n, \r (with \r\n read
   * as one boundary), \v, \f, \x1c, \x1d, \x1e, \x85, \u2028, \u2029.
   */
  predicate IsLineBoundary(c: char)
  {
    c == '\n' || c == '\r' || c == '\U{0B}' || c == '\U{0C}' ||
    c == '\U{1C}' || c == '\U{1D}' || c == '\U{1E}' || c == '\U{85}' ||
    c == '\U{2028}' || c == '\U{2029}'
  }

  /**
   * The characters str.strip removes when called without arguments: those
   * for which str.isspace holds. The general lemmas below hold for any
   * whitespace set; only CleanTextKeepsInnerSpaces uses that 'a' and 'b'
   * are not whitespace.
   */
  predicate IsSpace(c: char)
  {
    ('\U{09}' <= c <= '\U{0D}') || ('\U{1C}' <= c <= '\U{20}') ||
    c == '\U{85}' || c == '\U{A0}' || c == '\U{1680}' ||
    ('\U{2000}' <= c <= '\U{200A}') || c == '\U{2028}' || c == '\U{2029}' ||
    c == '\U{202F}' || c == '\U{205F}' || c == '\U{3000}'
  }

  predicate NoLineBoundary(s: string)
  {
    forall i :: 0 <= i < |s| ==> !IsLineBoundary(s[i])
  }

  predicate AllSpace(s: string)
  {
    forall i :: 0 <= i < |s| ==> IsSpace(s[i])
  }

  /** Neither starts nor ends with whitespace. */
  predicate Trimmed(s: string)
  {
    s == [] || (!IsSpace(s[0]) && !IsSpace(s[|s| - 1]))
  }

  // ---------------------------------------------------------------------
  // str.splitlines
  // ---------------------------------------------------------------------

  /** The index of the first line boundary in s, or |s| if there is none. */
  function LineEnd(s: string): (i: nat)
    ensures i <= |s|
    ensures forall k :: 0 <= k < i ==> !IsLineBoundary(s[k])
    ensures i < |s| ==> IsLineBoundary(s[i])
  {
    if s == [] then 0
    else if IsLineBoundary(s[0]) then 0
    else 1 + LineEnd(s[1..])
  }

  /**
   * str.splitlines without keepends: the lines between boundaries; a final
   * boundary does not open an empty last line, and "" has no lines.
   */
  function SplitLines(s: string): (lines: seq<string>)
    ensures forall i :: 0 <= i < |lines| ==> NoLineBoundary(lines[i])
    ensures lines == [] <==> s == []
    decreases |s|
  {
    if s == [] then []
    else
      var i := LineEnd(s);
      if i == |s| then [s]
      else
        var next := if s[i] == '\r' && i + 1 < |s| && s[i + 1] == '\n' then i + 2 else i + 1;
        [s[..i]] + SplitLines(s[next..])
  }

  /** eol ends a line that t follows: "\r\n", or one boundary that is not a '\r' followed by '\n'. */
  predicate IsLineTerminator(eol: string, t: string)
  {
    eol == "\r\n" ||
    (|eol| == 1 && IsLineBoundary(eol[0]) && !(eol[0] == '\r' && |t| >= 1 && t[0] == '\n'))
  }

  /** A line without boundaries, its terminator and the rest split into that line and the rest's lines. */
  lemma SplitLinesCons(line: string, eol: string, t: string)
    requires NoLineBoundary(line) && IsLineTerminator(eol, t)
    ensures SplitLines(line + eol + t) == [line] + SplitLines(t)
  {
    var s := line + eol + t;
    LineEndAt(line, eol + t);
    assert s == line + (eol + t);
    assert s[..|line|] == line;
    assert s[|line| + |eol|..] == t;
  }

  /** A nonempty string without boundaries is one line. */
  lemma SplitLinesSingle(line: string)
    requires NoLineBoundary(line) && line != []
    ensures SplitLines(line) == [line]
  {
    LineEndAt(line, []);
    assert line + [] == line;
  }

  lemma {:induction false} LineEndAt(line: string, rest: string)
    requires NoLineBoundary(line)
    requires rest == [] || IsLineBoundary(rest[0])
    ensures LineEnd(line + rest) == |line|
  {
    if line != [] {
      assert (line + rest)[1..] == line[1..] + rest;
      LineEndAt(line[1..], rest);
    }
  }

  // ---------------------------------------------------------------------
  // str.strip
  // ---------------------------------------------------------------------

  /** The number of whitespace characters s starts with. */
  function LeadingSpaces(s: string): (n: nat)
    ensures n <= |s|
    ensures forall k :: 0 <= k < n ==> IsSpace(s[k])
    ensures n < |s| ==> !IsSpace(s[n])
  {
    if s != [] && IsSpace(s[0]) then 1 + LeadingSpaces(s[1..]) else 0
  }

  /** The end of s once the whitespace it ends with, down to index lo, is cut off. */
  function StripEnd(s: string, lo: nat): (j: nat)
    requires lo <= |s|
    ensures lo <= j <= |s|
    ensures forall k :: j <= k < |s| ==> IsSpace(s[k])
    ensures j > lo ==> !IsSpace(s[j - 1])
  {
    if |s| > lo && IsSpace(s[|s| - 1]) then StripEnd(s[..|s| - 1], lo) else |s|
  }

  /**
   * str.strip: the result is the slice of s that is left once the leading
   * and the trailing whitespace are cut off.
   */
  function Strip(s: string): (r: string)
    ensures Trimmed(r)
    ensures var i := LeadingSpaces(s);
      && i + |r| <= |s| && s[i..i + |r|] == r
      && (forall k :: 0 <= k < i ==> IsSpace(s[k]))
      && (forall k :: i + |r| <= k < |s| ==> IsSpace(s[k]))
  {
    var i := LeadingSpaces(s);
    s[i..StripEnd(s, i)]
  }

  /** Strip is determined: whitespace, then a trimmed middle, then whitespace, strips to the middle. */
  lemma StripUnique(pre: string, middle: string, post: string)
    requires AllSpace(pre) && Trimmed(middle) && AllSpace(post)
    ensures Strip(pre + middle + post) == middle
  {
    var s := pre + middle + post;
    assert forall k :: 0 <= k < |pre| ==> s[k] == pre[k];
    assert forall k :: |pre| + |middle| <= k < |s| ==> s[k] == post[k - |pre| - |middle|];
    if middle != [] {
      assert s[|pre|] == middle[0] && s[|pre| + |middle| - 1] == middle[|middle| - 1];
      assert LeadingSpaces(s) == |pre|;
      assert StripEnd(s, |pre|) == |pre| + |middle|;
      assert s[|pre|..|pre| + |middle|] == middle;
    }
  }

  /** The characters of Strip(s) are characters of s, so it keeps a line free of boundaries. */
  lemma StripNoLineBoundary(s: string)
    requires NoLineBoundary(s)
    ensures NoLineBoundary(Strip(s))
  {
    var i, r := LeadingSpaces(s), Strip(s);
    forall k | 0 <= k < |r| ensures !IsLineBoundary(r[k]) {
      assert r[k] == s[i..i + |r|][k] == s[i + k];
    }
  }

  // ---------------------------------------------------------------------
  // clean_text
  // ---------------------------------------------------------------------

  /** [line.strip() for line in lines] */
  function StripAll(lines: seq<string>): (r: seq<string>)
    ensures |r| == |lines|
    ensures forall i :: 0 <= i < |lines| ==> r[i] == Strip(lines[i])
  {
    if lines == [] then [] else [Strip(lines[0])] + StripAll(lines[1..])
  }

  /**
   * filter(None, lines): the nonempty lines, in order. Every nonempty line
   * is kept as often as it occurs; `NonEmptyOnlyAppend` gives the order.
   */
  function NonEmptyOnly(lines: seq<string>): (r: seq<string>)
    ensures |r| <= |lines|
    ensures forall i :: 0 <= i < |r| ==> r[i] != [] && r[i] in lines
    ensures multiset(r) == multiset(lines)[[] := 0]
  {
    if lines == [] then []
    else
      assert lines == [lines[0]] + lines[1..];
      if lines[0] == [] then NonEmptyOnly(lines[1..])
      else [lines[0]] + NonEmptyOnly(lines[1..])
  }

  /** Filtering distributes over concatenation, so the kept lines keep their order. */
  lemma {:induction false} NonEmptyOnlyAppend(a: seq<string>, b: seq<string>)
    ensures NonEmptyOnly(a + b) == NonEmptyOnly(a) + NonEmptyOnly(b)
  {
    if a == [] {
      assert a + b == b;
    } else {
      assert (a + b)[0] == a[0];
      assert (a + b)[1..] == a[1..] + b;
      NonEmptyOnlyAppend(a[1..], b);
    }
  }

  /** The total length of the parts. */
  function TotalLength(parts: seq<string>): nat
  {
    if parts == [] then 0 else |parts[0]| + TotalLength(parts[1..])
  }

  /**
   * ' '.join(parts): the parts in order, each of the |parts| - 1 gaps
   * filled by one ' '; it starts with the first part.
   */
  function JoinWithSpace(parts: seq<string>): (r: string)
    ensures parts == [] ==> r == []
    ensures parts != [] ==> |r| == TotalLength(parts) + |parts| - 1
    ensures parts != [] ==> parts[0] <= r
  {
    if parts == [] then []
    else if |parts| == 1 then parts[0]
    else parts[0] + " " + JoinWithSpace(parts[1..])
  }

  /**
   * Joining splits at any gap into the two joins and one ' ' between them;
   * with `JoinWithSpaceCons(p, [])` this fixes the join of every list.
   */
  lemma {:induction false} JoinWithSpaceAppend(a: seq<string>, b: seq<string>)
    requires a != [] && b != []
    ensures JoinWithSpace(a + b) == JoinWithSpace(a) + " " + JoinWithSpace(b)
  {
    assert (a + b)[0] == a[0];
    assert (a + b)[1..] == a[1..] + b;
    if |a| > 1 {
      JoinWithSpaceAppend(a[1..], b);
    } else {
      assert a[1..] + b == b;
    }
  }

  /** The pieces clean_text joins: nonempty, trimmed, without line boundaries. */
  predicate CleanPart(p: string)
  {
    p != [] && Trimmed(p) && NoLineBoundary(p)
  }

  /** Joining clean pieces with ' ' gives a trimmed text without line boundaries, empty only for no pieces. */
  lemma {:induction false} JoinClean(parts: seq<string>)
    requires forall i :: 0 <= i < |parts| ==> CleanPart(parts[i])
    ensures var r := JoinWithSpace(parts);
      Trimmed(r) && NoLineBoundary(r) && (r == [] <==> parts == [])
  {
    if |parts| > 1 {
      JoinClean(parts[1..]);
      var a, b := parts[0], JoinWithSpace(parts[1..]);
      assert CleanPart(a);
      var r := a + " " + b;
      assert r[0] == a[0] && r[|r| - 1] == b[|b| - 1];
      forall k | 0 <= k < |r| ensures !IsLineBoundary(r[k]) {
        if k < |a| {
          assert r[k] == a[k];
        } else if k > |a| {
          assert r[k] == b[k - |a| - 1];
        }
      }
    }
  }

  /** The stripped, nonblank lines of a list of lines joined by ' '. */
  function CleanLines(lines: seq<string>): string
  {
    JoinWithSpace(NonEmptyOnly(StripAll(lines)))
  }

  /** The pieces CleanLines joins are clean. */
  lemma CleanLinesParts(lines: seq<string>)
    requires forall i :: 0 <= i < |lines| ==> NoLineBoundary(lines[i])
    ensures forall i :: 0 <= i < |NonEmptyOnly(StripAll(lines))| ==> CleanPart(NonEmptyOnly(StripAll(lines))[i])
  {
    var stripped := StripAll(lines);
    var parts := NonEmptyOnly(stripped);
    forall i | 0 <= i < |parts| ensures CleanPart(parts[i]) {
      assert parts[i] != [] && parts[i] in stripped;
      var j :| 0 <= j < |stripped| && stripped[j] == parts[i];
      StripNoLineBoundary(lines[j]);
    }
  }

  lemma CleanLinesClean(lines: seq<string>)
    requires forall i :: 0 <= i < |lines| ==> NoLineBoundary(lines[i])
    ensures Trimmed(CleanLines(lines)) && NoLineBoundary(CleanLines(lines))
  {
    CleanLinesParts(lines);
    JoinClean(NonEmptyOnly(StripAll(lines)));
  }

  /**
   * clean_text: "" for empty input; otherwise the lines of str.splitlines,
   * each stripped, the empty ones dropped, joined by single spaces.
   */
  function CleanText(text: string): (r: string)
    ensures text == [] ==> r == []
    ensures NoLineBoundary(r)
    ensures Trimmed(r)
  {
    if text == [] then []
    else
      CleanLinesClean(SplitLines(text));
      CleanLines(SplitLines(text))
  }

  /** CleanLines of one more line: a blank line adds nothing, not even a separator. */
  lemma CleanLinesCons(line: string, lines: seq<string>)
    requires NoLineBoundary(line)
    requires forall i :: 0 <= i < |lines| ==> NoLineBoundary(lines[i])
    ensures CleanLines([line] + lines) ==
      if Strip(line) == [] then CleanLines(lines)
      else if CleanLines(lines) == [] then Strip(line)
      else Strip(line) + " " + CleanLines(lines)
  {
    var stripped := StripAll(lines);
    StripAllCons(line, lines);
    NonEmptyOnlyCons(Strip(line), stripped);
    CleanLinesParts(lines);
    JoinClean(NonEmptyOnly(stripped));
    if Strip(line) != [] {
      JoinWithSpaceCons(Strip(line), NonEmptyOnly(stripped));
    }
  }

  lemma StripAllCons(line: string, lines: seq<string>)
    ensures StripAll([line] + lines) == [Strip(line)] + StripAll(lines)
  {
    assert ([line] + lines)[1..] == lines;
  }

  lemma NonEmptyOnlyCons(p: string, lines: seq<string>)
    ensures NonEmptyOnly([p] + lines) == if p == [] then NonEmptyOnly(lines) else [p] + NonEmptyOnly(lines)
  {
    assert ([p] + lines)[1..] == lines;
  }

  lemma JoinWithSpaceCons(p: string, parts: seq<string>)
    ensures JoinWithSpace([p] + parts) == if parts == [] then p else p + " " + JoinWithSpace(parts)
  {
    assert ([p] + parts)[1..] == parts;
  }

  /**
   * The inductive characterisation of clean_text: the first line, stripped,
   * then a single ' ', then the cleaned rest; a blank first line is dropped
   * with its separator.
   */
  lemma CleanTextCons(line: string, eol: string, t: string)
    requires NoLineBoundary(line) && IsLineTerminator(eol, t)
    ensures CleanText(line + eol + t) ==
      if Strip(line) == [] then CleanText(t)
      else if CleanText(t) == [] then Strip(line)
      else Strip(line) + " " + CleanText(t)
  {
    SplitLinesCons(line, eol, t);
    CleanLinesCons(line, SplitLines(t));
  }

  /** On a single line clean_text is str.strip; in particular runs of inner spaces stay. */
  lemma CleanTextSingleLine(s: string)
    requires NoLineBoundary(s)
    ensures CleanText(s) == Strip(s)
  {
    if s != [] {
      SplitLinesSingle(s);
      CleanLinesCons(s, []);
    }
  }

  /** Whatever the comment in clean_text says, inner runs of spaces are kept. */
  lemma CleanTextKeepsInnerSpaces()
    ensures CleanText("a  b") == "a  b"
  {
    var s := "a  b";
    assert NoLineBoundary(s) by {
      forall k | 0 <= k < |s| ensures !IsLineBoundary(s[k]) {
        assert s[k] == 'a' || s[k] == ' ' || s[k] == 'b';
      }
    }
    assert Trimmed(s);
    CleanTextSingleLine(s);
    StripUnique([], s, []);
    assert [] + s + [] == s;
  }

  /** clean_text is idempotent. */
  lemma CleanTextIdempotent(text: string)
    ensures CleanText(CleanText(text)) == CleanText(text)
  {
    var r := CleanText(text);
    CleanTextSingleLine(r);
    StripUnique([], r, []);
    assert [] + r + [] == r;
  }

  // ---------------------------------------------------------------------
  // safe_get_text
  // ---------------------------------------------------------------------

  /**
   * safe_get_text, with the element given by its text (None when there is
   * no element). An element is always truthy, so an element whose text is
   * empty yields "" and not the default.
   */
  function SafeGetText(element: Option<string>, default: string := ""): (r: string)
    ensures element.None? ==> r == default
    ensures element.Some? ==> r == CleanText(element.value) && NoLineBoundary(r) && Trimmed(r)
    ensures element == Some([]) ==> r == []
  {
    match element
    case None => default
    case Some(text) => CleanText(text)
  }

  /** With the default left out, an absent element gives "". */
  lemma SafeGetTextDefault(text: string)
    ensures SafeGetText(None) == ""
    ensures SafeGetText(Some(text)) == CleanText(text)
  {
  }

  // ---------------------------------------------------------------------
  // get_headers
  // ---------------------------------------------------------------------

  const UserAgent: string :=
    "Mozilla/5.0 (Windows NT 10.0; Win64; x64) AppleWebKit/537.36 (KHTML, like Gecko) Chrome/91.0.4472.124 Safari/537.36"

  /** The six default request headers. */
  const DefaultHeaders: map<string, string> := map[
    "User-Agent" := UserAgent,
    "Accept" := "text/html,application/xhtml+xml,application/xml;q=0.9,*/*;q=0.8",
    "Accept-Language" := "en-US,en;q=0.5",
    "Accept-Encoding" := "gzip, deflate",
    "Connection" := "keep-alive",
    "Upgrade-Insecure-Requests" := "1"
  ]

  /** The custom headers passed in, with None read as no headers. */
  function CustomOf(custom: Option<map<string, string>>): map<string, string>
  {
    match custom
    case None => map[]
    case Some(m) => m
  }

  /**
   * get_headers: the defaults, updated in place with the custom headers when
   * there are any (a None or empty dict is falsy and skips the update).
   */
  method GetHeaders(custom: Option<map<string, string>> := None) returns (headers: map<string, string>)
    ensures custom.None? || custom == Some(map[]) ==> headers == DefaultHeaders
    ensures headers.Keys == DefaultHeaders.Keys + CustomOf(custom).Keys
    ensures forall k :: k in CustomOf(custom) ==> headers[k] == CustomOf(custom)[k]
    ensures forall k :: k in DefaultHeaders && k !in CustomOf(custom) ==> headers[k] == DefaultHeaders[k]
  {
    headers := DefaultHeaders;
    if custom.Some? && |custom.value| > 0 {
      headers := headers + custom.value;
    }
  }

  /** There are exactly six default headers, with these names. */
  lemma DefaultHeaderNames()
    ensures DefaultHeaders.Keys ==
      {"User-Agent", "Accept", "Accept-Language", "Accept-Encoding", "Connection", "Upgrade-Insecure-Requests"}
    ensures |DefaultHeaders| == 6
  {
  }
}
