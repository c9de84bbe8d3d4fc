/** The delimiter escape applied when a template file is loaded and the
    unescape applied before it is written (index.js, lines 30-36).

    Both are JavaScript `String.prototype.replace` calls with a regular
    expression that has no `g` flag, so each rewrites the LEFTMOST match only:
      escape:   /([{<])%%=/         replaced by  '__ESC_$1DELIM__'
      unescape: /__ESC_(.)DELIM__/  replaced by  '$1%='
    `.` matches one UTF-16 code unit other than a line terminator. */
module Delimiters {
  import opened Wrappers

  type Text = seq<char>

  /** Opening part of every sentinel; text free of it can never be misread. */
  const Marker: Text := "__ESC_"
  /** Closing part of every sentinel. */
  const Trailer: Text := "DELIM__"

  predicate IsBracket(c: char) { c == '{' || c == '<' }

  /** The characters `.` refuses in a JavaScript regular expression without the `s` flag. */
  predicate IsLineTerminator(c: char) {
    c == '\n' || c == '\r' || c == '\U{2028}' || c == '\U{2029}'
  }

  /** What `.` matches in a JavaScript regular expression without the `s` and
      `u` flags: one UTF-16 code unit that is not a line terminator. A
      character outside the Basic Multilingual Plane is two code units there,
      and the unit after its first half is never `D`, so it never matches. */
  predicate MatchesDot(c: char) {
    !IsLineTerminator(c) && (c as int) < 0x1_0000
  }

  /** The 14-character token that stands for an escaped delimiter opened by c. */
  function Sentinel(c: char): (r: Text)
    ensures |r| == 14 && r[..6] == Marker && r[6] == c && r[7..] == Trailer
  {
    Marker + [c] + Trailer
  }

  // ---------------------------------------------------------------- escape

  /** `/([{<])%%=/` matches at position i of s. */
  predicate EscapeMatchAt(s: Text, i: int) {
    0 <= i && i + 4 <= |s| && IsBracket(s[i]) && s[i + 1] == '%' && s[i + 2] == '%' && s[i + 3] == '='
  }

  predicate HasEscapeMatch(s: Text) {
    exists i :: 0 <= i < |s| && EscapeMatchAt(s, i)
  }

  /** k is the leftmost match of the escape pattern in s. */
  predicate IsFirstEscape(s: Text, k: int) {
    EscapeMatchAt(s, k) && forall j :: 0 <= j < k ==> !EscapeMatchAt(s, j)
  }

  function FirstEscape(s: Text): Option<nat> {
    FindFirst(i => EscapeMatchAt(s, i), 0, |s|)
  }

  /** The load-time rewrite: the leftmost `{%%=` or `<%%=` becomes the sentinel
      that records its bracket; everything else is kept. */
  function Escape(s: Text): Text {
    match FirstEscape(s)
    case None => s
    case Some(k) => s[..k] + Sentinel(s[k]) + s[k + 4..]
  }

  // -------------------------------------------------------------- unescape

  /** `/__ESC_(.)DELIM__/` matches at position i of s. */
  predicate SentinelAt(s: Text, i: int) {
    0 <= i && i + 14 <= |s| && MatchesDot(s[i + 6]) && s[i..i + 14] == Sentinel(s[i + 6])
  }

  predicate HasSentinel(s: Text) {
    exists i :: 0 <= i < |s| && SentinelAt(s, i)
  }

  /** k is the leftmost match of the unescape pattern in s. */
  predicate IsFirstSentinel(s: Text, k: int) {
    SentinelAt(s, k) && forall j :: 0 <= j < k ==> !SentinelAt(s, j)
  }

  function FirstSentinel(s: Text): Option<nat> {
    FindFirst(i => SentinelAt(s, i), 0, |s|)
  }

  /** The pre-write rewrite: the leftmost sentinel becomes its captured
      character followed by `%=`; everything else is kept. */
  function Unescape(s: Text): Text {
    match FirstSentinel(s)
    case None => s
    case Some(k) => s[..k] + [s[k + 6]] + "%=" + s[k + 14..]
  }

  predicate MarkerAt(s: Text, i: int) {
    0 <= i && i + 6 <= |s| && s[i..i + 6] == Marker
  }

  /** s holds the reserved `__ESC_` string somewhere. */
  predicate ContainsMarker(s: Text) {
    exists i :: 0 <= i < |s| && MarkerAt(s, i)
  }

  // ------------------------------------------------- the searches, exactly

  lemma FirstEscapeIs(s: Text)
    ensures FirstEscape(s).None? <==> !HasEscapeMatch(s)
    ensures FirstEscape(s).Some? ==> IsFirstEscape(s, FirstEscape(s).value)
  {
    var p := i => EscapeMatchAt(s, i);
    if HasEscapeMatch(s) {
      var i :| 0 <= i < |s| && EscapeMatchAt(s, i);
      assert p(i);
    }
    if FirstEscape(s).Some? {
      forall j | 0 <= j < FirstEscape(s).value ensures !EscapeMatchAt(s, j) {
        assert !p(j);
      }
    }
  }

  lemma FirstEscapeAt(s: Text, k: int)
    requires IsFirstEscape(s, k)
    ensures FirstEscape(s) == Some(k)
  {
    var p := i => EscapeMatchAt(s, i);
    assert p(k);
  }

  lemma FirstSentinelIs(s: Text)
    ensures FirstSentinel(s).None? <==> !HasSentinel(s)
    ensures FirstSentinel(s).Some? ==> IsFirstSentinel(s, FirstSentinel(s).value)
  {
    var p := i => SentinelAt(s, i);
    if HasSentinel(s) {
      var i :| 0 <= i < |s| && SentinelAt(s, i);
      assert p(i);
    }
    if FirstSentinel(s).Some? {
      forall j | 0 <= j < FirstSentinel(s).value ensures !SentinelAt(s, j) {
        assert !p(j);
      }
    }
  }

  lemma FirstSentinelAt(s: Text, k: int)
    requires IsFirstSentinel(s, k)
    ensures FirstSentinel(s) == Some(k)
  {
    var p := i => SentinelAt(s, i);
    assert p(k);
  }

  lemma SentinelBeginsWithMarker(s: Text, i: int)
    requires SentinelAt(s, i)
    ensures MarkerAt(s, i)
  {
    assert s[i..i + 6] == s[i..i + 14][..6];
  }

  /** Text without the reserved marker holds no sentinel. */
  lemma MarkerFreeHasNoSentinel(s: Text)
    requires !ContainsMarker(s)
    ensures !HasSentinel(s)
  {
    forall i | 0 <= i < |s| && SentinelAt(s, i) ensures MarkerAt(s, i) {
      SentinelBeginsWithMarker(s, i);
    }
  }

  /** The fourteen characters of a sentinel, one by one. */
  lemma SentinelSpelling(c: char)
    ensures Sentinel(c) == ['_', '_', 'E', 'S', 'C', '_', c, 'D', 'E', 'L', 'I', 'M', '_', '_']
  {
  }

  /** A sentinel cannot start in the five positions just before another
      sentinel: the two would disagree on some character. */
  lemma NoSentinelJustBefore(t: Text, j: int, k: int, c: char)
    requires 0 <= k && k + 14 <= |t| && t[k..k + 14] == Sentinel(c)
    requires k - 6 < j < k
    ensures !SentinelAt(t, j)
  {
    SentinelSpelling(c);
    assert t[k] == t[k..k + 14][0] && t[k + 1] == t[k..k + 14][1] && t[k + 2] == t[k..k + 14][2];
    if j >= 0 && j + 14 <= |t| {
      var x := t[j + 6];
      SentinelSpelling(x);
      var w := t[j..j + 14];
      assert t[j + 2] == w[2] && t[j + 3] == w[3] && t[j + 4] == w[4] && t[j + 7] == w[7];
    }
  }

  /** Where the escaped text keeps the original, marker-free text, no
      sentinel can start. */
  lemma NoSentinelInKeptPrefix(s: Text, t: Text, j: int, k: int)
    requires 0 <= j && j + 6 <= k <= |s| && k <= |t| && t[..k] == s[..k]
    requires !MarkerAt(s, j)
    ensures !SentinelAt(t, j)
  {
    assert t[j..j + 6] == s[j..j + 6] by {
      assert t[..k][j..j + 6] == s[..k][j..j + 6];
    }
    if SentinelAt(t, j) {
      SentinelBeginsWithMarker(t, j);
    }
  }

  /** Escaping marker-free text makes the inserted sentinel the leftmost one. */
  lemma EscapedSentinelIsFirst(s: Text, k: int)
    requires !ContainsMarker(s) && IsFirstEscape(s, k)
    ensures IsFirstSentinel(Escape(s), k)
  {
    EscapeRewritesFirstOnly(s, k);
    var t := Escape(s);
    assert t[k..k + 14] == Sentinel(s[k]);
    forall j | 0 <= j < k ensures !SentinelAt(t, j) {
      if j + 6 <= k {
        assert !MarkerAt(s, j);
        NoSentinelInKeptPrefix(s, t, j, k);
      } else {
        NoSentinelJustBefore(t, j, k, s[k]);
      }
    }
  }

  // ------------------------------------------------------------ properties

  /** Escape changes the text exactly when the pattern occurs in it. */
  lemma EscapeIdentity(s: Text)
    ensures Escape(s) == s <==> !HasEscapeMatch(s)
  {
    FirstEscapeIs(s);
    EscapeLength(s);
  }

  /** A match grows the text by exactly ten characters (4 become 14). */
  lemma EscapeLength(s: Text)
    ensures |Escape(s)| == if HasEscapeMatch(s) then |s| + 10 else |s|
  {
    FirstEscapeIs(s);
  }

  /** Only the leftmost match is rewritten: the text before it and after it,
      later matches included, is kept, and the sentinel records the bracket. */
  lemma EscapeRewritesFirstOnly(s: Text, k: int)
    requires IsFirstEscape(s, k)
    ensures |Escape(s)| == |s| + 10
    ensures Escape(s)[..k] == s[..k]
    ensures SentinelAt(Escape(s), k) && Escape(s)[k + 6] == s[k]
    ensures Escape(s)[k + 14..] == s[k + 4..]
    ensures forall j :: k < j && EscapeMatchAt(s, j) ==> EscapeMatchAt(Escape(s), j + 10)
  {
    FirstEscapeAt(s, k);
    var r := Escape(s);
    assert r == s[..k] + Sentinel(s[k]) + s[k + 4..];
    assert r[k..k + 14] == Sentinel(s[k]);
    forall j | k < j && EscapeMatchAt(s, j) ensures EscapeMatchAt(r, j + 10) {
      assert j >= k + 4;
      assert r[j + 10..j + 14] == s[j..j + 4] by {
        assert r[k + 14..][j - k - 4..j - k] == s[k + 4..][j - k - 4..j - k];
      }
      assert r[j + 10] == r[j + 10..j + 14][0];
    }
  }

  /** Unescape changes the text exactly when it holds a sentinel. */
  lemma UnescapeIdentity(s: Text)
    ensures Unescape(s) == s <==> !HasSentinel(s)
  {
    FirstSentinelIs(s);
    UnescapeLength(s);
  }

  /** A sentinel shrinks the text by exactly eleven characters (14 become 3). */
  lemma UnescapeLength(s: Text)
    ensures |Unescape(s)| == if HasSentinel(s) then |s| - 11 else |s|
  {
    FirstSentinelIs(s);
  }

  /** Only the leftmost sentinel is rewritten, into its captured character
      followed by `%=`; the text before and after it is kept. */
  lemma UnescapeRewritesFirstOnly(s: Text, k: int)
    requires IsFirstSentinel(s, k)
    ensures |Unescape(s)| == |s| - 11
    ensures Unescape(s)[..k] == s[..k]
    ensures Unescape(s)[k..k + 3] == [s[k + 6], '%', '=']
    ensures Unescape(s)[k + 3..] == s[k + 14..]
  {
    FirstSentinelAt(s, k);
    var r := Unescape(s);
    assert r == s[..k] + [s[k + 6]] + "%=" + s[k + 14..];
  }

  /** Unescape is not limited to brackets: any character that `.` matches
      between `__ESC_` and `DELIM__` is emitted before `%=`; any other
      character there leaves the text as it is. */
  lemma UnescapeSentinel(c: char)
    ensures Unescape(Sentinel(c)) == if MatchesDot(c) then [c, '%', '='] else Sentinel(c)
  {
    var s := Sentinel(c);
    if !MatchesDot(c) {
      forall i | 0 <= i < |s| ensures !SentinelAt(s, i) {
        if i == 0 {
          assert s[6] == c;
        }
      }
      FirstSentinelIs(s);
    } else {
      assert SentinelAt(s, 0);
      FirstSentinelAt(s, 0);
    }
  }

  /** The round trip on text that does not hold the reserved `__ESC_` string:
      the leftmost escaped delimiter comes back with one `%` fewer and with the
      same bracket; nothing else changes. */
  lemma EscapeRoundTrip(s: Text, k: int)
    requires !ContainsMarker(s) && IsFirstEscape(s, k)
    ensures Unescape(Escape(s)) == s[..k + 1] + s[k + 2..]
    ensures Unescape(Escape(s))[k] == s[k]
  {
    EscapedSentinelIsFirst(s, k);
    var t := Escape(s);
    EscapeRewritesFirstOnly(s, k);
    UnescapeRewritesFirstOnly(t, k);
    var u := Unescape(t);
    Reassemble(u, s[..k], [s[k], '%', '='], s[k + 4..]);
    RemovePercent(s, k);
  }

  lemma Reassemble(u: Text, a: Text, b: Text, c: Text)
    requires |a| + |b| <= |u| && u[..|a|] == a && u[|a|..|a| + |b|] == b && u[|a| + |b|..] == c
    ensures u == a + b + c
  {
    assert u == u[..|a|] + u[|a|..|a| + |b|] + u[|a| + |b|..];
  }

  lemma RemovePercent(s: Text, k: int)
    requires EscapeMatchAt(s, k)
    ensures s[..k + 1] + s[k + 2..] == s[..k] + [s[k], '%', '='] + s[k + 4..]
  {
    assert s[..k + 1] == s[..k] + [s[k]];
    assert s[k + 2..] == [s[k + 2], s[k + 3]] + s[k + 4..];
  }

  /** With no delimiter to escape, marker-free text survives both rewrites. */
  lemma EscapeRoundTripNoMatch(s: Text)
    requires !ContainsMarker(s) && !HasEscapeMatch(s)
    ensures Unescape(Escape(s)) == s
  {
    EscapeIdentity(s);
    MarkerFreeHasNoSentinel(s);
    UnescapeIdentity(s);
  }

  /** Excluding only whole sentinels from the input is not enough for the
      round trip: a `__ESC_xDELIM` right before `{%%=` joins the inserted
      sentinel's leading `__` and is unescaped instead of it. */
  lemma RoundTripNeedsMarkerFreeText(s: Text)
    requires s == "__ESC_xDELIM{%%="
    ensures !HasSentinel(s) && IsFirstEscape(s, 12)
    ensures Unescape(Escape(s)) == "x%=ESC_{DELIM__"
    ensures Unescape(Escape(s)) != s[..13] + s[14..]
  {
    CounterexampleNoSentinel(s);
    CounterexampleEscape(s);
    var t := Escape(s);
    assert t[..14] == Sentinel('x');
    assert SentinelAt(t, 0);
    FirstSentinelAt(t, 0);
    assert t[14..] == "ESC_{DELIM__";
    assert Unescape(t)[0] == 'x' != s[0];
  }

  lemma CounterexampleNoSentinel(s: Text)
    requires s == "__ESC_xDELIM{%%="
    ensures !HasSentinel(s)
  {
    forall i | 0 <= i < |s| ensures !SentinelAt(s, i) {
      if i + 14 <= |s| {
        SentinelSpelling(s[i + 6]);
        var w := s[i..i + 14];
        assert w[2] == s[i + 2] && w[12] == s[i + 12];
      }
    }
  }

  lemma CounterexampleEscape(s: Text)
    requires s == "__ESC_xDELIM{%%="
    ensures IsFirstEscape(s, 12)
    ensures Escape(s) == "__ESC_xDELIM__ESC_{DELIM__"
  {
    forall j | 0 <= j < 12 ensures !EscapeMatchAt(s, j) {
      assert s[j] == s[..12][j];
      NoBracketIn(s[..12], j);
    }
    FirstEscapeAt(s, 12);
    assert s[..12] + Sentinel('{') + s[16..] == "__ESC_xDELIM__ESC_{DELIM__";
  }

  /** The prefix `__ESC_xDELIM` holds no bracket. */
  lemma NoBracketIn(p: Text, j: int)
    requires p == "__ESC_xDELIM" && 0 <= j < |p|
    ensures !IsBracket(p[j])
  {
  }

  /** Loading then writing the text of the two test pages: `{%%= foo %}` and
      `<%%= foo %>` become `{%= foo %}` and `<%= foo %>`, and the
      single-percent tag before them is untouched. */
  lemma TestTemplatesRoundTrip(b: char, e: char)
    requires (b, e) == ('{', '}') || (b, e) == ('<', '>')
    ensures Unescape(Escape(TestTemplate(b, e, "%%="))) == TestTemplate(b, e, "%=")
  {
    var s := TestTemplate(b, e, "%%=");
    TestTemplateNoMarker(b, e);
    TestTemplateFirstEscape(b, e);
    EscapeRoundTrip(s, 16);
    TestTemplateShortened(b, e);
  }

  lemma TestTemplateShortened(b: char, e: char)
    ensures var s := TestTemplate(b, e, "%%="); s[..17] + s[18..] == TestTemplate(b, e, "%=")
  {
    var pre, post := "a " + [b] + "%= name %" + [e] + " b " + [b], " foo %" + [e] + " c";
    var s := TestTemplate(b, e, "%%=");
    assert s == pre + ("%%=" + post);
    assert TestTemplate(b, e, "%=") == pre + ("%=" + post);
    assert |pre| == 17;
    assert s[..17] == pre;
    assert s[18..] == "%=" + post;
  }

  lemma TestTemplateFirstEscape(b: char, e: char)
    requires (b, e) == ('{', '}') || (b, e) == ('<', '>')
    ensures IsFirstEscape(TestTemplate(b, e, "%%="), 16)
  {
    var s := TestTemplate(b, e, "%%=");
    var rest := s[..2] + s[3..16];
    assert rest == "a %= name %" + [e] + " b ";
    assert '{' !in rest && '<' !in rest;
    forall j | 0 <= j < 16 ensures !EscapeMatchAt(s, j) {
      if j < 2 {
        assert s[j] == rest[j];
      } else if j > 2 {
        assert s[j] == rest[j - 1];
      } else {
        assert s[4] == '=';
      }
    }
  }

  lemma TestTemplateNoMarker(b: char, e: char)
    requires (b, e) == ('{', '}') || (b, e) == ('<', '>')
    ensures !ContainsMarker(TestTemplate(b, e, "%%="))
  {
    var s := TestTemplate(b, e, "%%=");
    assert '_' !in s;
    forall i | 0 <= i < |s| ensures !MarkerAt(s, i) {
      if i + 6 <= |s| {
        assert s[i] == s[i..i + 6][0];
      }
    }
  }

  /** `a <b>%= name %<e> b <b><sigil> foo %<e> c`, the shape of the test pages. */
  function TestTemplate(b: char, e: char, sigil: Text): Text {
    "a " + [b] + "%= name %" + [e] + " b " + [b] + sigil + " foo %" + [e] + " c"
  }
}
