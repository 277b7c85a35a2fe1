/**
 * Properties of the preference-tree parser of pref_parse.c, stated about the
 * specification functions that the parser's methods are proved equal to.
 */
module PrefParseFacts {
  import opened Wrappers
  import opened PrefParse

  // ---------------------------------------------------------------------
  // Maximal runs

  /** A run of token characters ending at `j` before a non-token character is the maximal one. */
  lemma TokenEndIs(text: string, i: nat, j: nat)
    requires i <= j <= |text|
    requires forall k :: i <= k < j ==> IsTokenChar(text[k])
    requires j == |text| || !IsTokenChar(text[j])
    ensures TokenEnd(text, i) == j
  {
    TokenRun(text, i);
  }

  /** A run of whitespace ending at `j` before a non-whitespace character is the maximal one. */
  lemma WhitespaceEndIs(text: string, i: nat, j: nat)
    requires i <= j <= |text|
    requires forall k :: i <= k < j ==> IsWhitespace(text[k])
    requires j == |text| || !IsWhitespace(text[j])
    ensures WhitespaceEnd(text, i) == j
  {
    WhitespaceRun(text, i);
  }

  // ---------------------------------------------------------------------
  // try_string's copy

  /** The byte in memory just before `text[i]`. */
  function ByteBefore(text: string, prior: char, i: nat): char
    requires i <= |text|
  {
    if i == 0 then prior else text[i - 1]
  }

  /** A token ended by exactly one whitespace character (and then a non-whitespace one or the end). */
  predicate EndsWithOneSpace(text: string, e: nat)
    requires e <= |text|
  {
    e < |text| && IsWhitespace(text[e]) && (e + 1 == |text| || !IsWhitespace(text[e + 1]))
  }

  /** try_string leaves the cursor at the end of the text or before a non-whitespace character. */
  lemma TryStringStops(st: ParseState)
    requires st.Valid()
    ensures var r := TryStringSpec(st);
      r.1 == |st.text| || !IsWhitespace(st.text[r.1])
  {
    if !IsEof(st) {
      var e := TokenEnd(st.text, st.idx);
      TokenRun(st.text, st.idx);
      if e < |st.text| && IsWhitespace(st.text[e]) {
        WhitespaceRun(st.text, e);
      }
    }
  }

  /**
   * try_string returns the consumed token when one whitespace character
   * ended it. With two or more, the copy is shifted forward and ends in
   * whitespace; ended by a bracket or the end of the text, it is shifted back
   * and starts with the byte before the token, so it differs from the token
   * unless that byte is itself a token character that repeats it.
   */
  lemma TryStringCopy(st: ParseState)
    requires st.Valid() && !IsEof(st)
    requires TokenEnd(st.text, st.idx) > st.idx
    ensures EndsWithOneSpace(st.text, TokenEnd(st.text, st.idx)) ==>
              TryStringSpec(st).0 == Some(st.text[st.idx..TokenEnd(st.text, st.idx)])
    ensures !EndsWithOneSpace(st.text, TokenEnd(st.text, st.idx)) && !IsTokenChar(ByteBefore(st.text, st.prior, st.idx)) ==>
              TryStringSpec(st).0 != Some(st.text[st.idx..TokenEnd(st.text, st.idx)])
  {
    var e := TokenEnd(st.text, st.idx);
    if e < |st.text| && IsWhitespace(st.text[e]) {
      CopyAfterWhitespace(st);
    } else if !IsTokenChar(ByteBefore(st.text, st.prior, st.idx)) {
      CopyAtStop(st);
    }
  }

  /** A token ended by whitespace is copied as it is exactly when one whitespace character ends it. */
  lemma CopyAfterWhitespace(st: ParseState)
    requires st.Valid() && !IsEof(st)
    requires TokenEnd(st.text, st.idx) > st.idx
    requires TokenEnd(st.text, st.idx) < |st.text| && IsWhitespace(st.text[TokenEnd(st.text, st.idx)])
    ensures EndsWithOneSpace(st.text, TokenEnd(st.text, st.idx)) <==>
              TryStringSpec(st).0 == Some(st.text[st.idx..TokenEnd(st.text, st.idx)])
  {
    var text, i := st.text, st.idx;
    var e := TokenEnd(text, i);
    var token := text[i..e];
    var r := TryStringSpec(st);
    TokenRun(text, i);
    var final := WhitespaceEnd(text, e);
    WhitespaceRun(text, e);
    if final == e + 1 {
      assert r.0.value == text[i..e];
    } else {
      var len := e - i;
      var lo := final - len - 1;
      assert r.0.value == Window(text, st.prior, lo, len);
      var copy := text[lo..lo + len];
      assert e + 2 <= final && lo + len - 1 == final - 2;
      assert copy[len - 1] == text[lo + len - 1];
      assert IsWhitespace(text[final - 2]);
      assert token[len - 1] == text[e - 1] && IsTokenChar(text[e - 1]);
    }
  }

  /** A token ended by a bracket or the end of the text is copied from one byte earlier. */
  lemma CopyAtStop(st: ParseState)
    requires st.Valid() && !IsEof(st)
    requires TokenEnd(st.text, st.idx) > st.idx
    requires !(TokenEnd(st.text, st.idx) < |st.text| && IsWhitespace(st.text[TokenEnd(st.text, st.idx)]))
    requires !IsTokenChar(ByteBefore(st.text, st.prior, st.idx))
    ensures TryStringSpec(st).0 != Some(st.text[st.idx..TokenEnd(st.text, st.idx)])
  {
    var text, i := st.text, st.idx;
    var e := TokenEnd(text, i);
    var token := text[i..e];
    TokenRun(text, i);
    assert token[0] == text[i] && IsTokenChar(token[0]);
    var copy := TryStringSpec(st).0.value;
    if i == 0 {
      assert copy[0] == st.prior;
    } else {
      assert copy == text[i - 1..e - 1];
      assert copy[0] == text[i - 1];
    }
  }

  // ---------------------------------------------------------------------
  // try_paren_pref and try_mime_pref

  /**
   * try_paren_pref fails without moving unless `open` is at the cursor; once
   * it has consumed `open`, a failure leaves the cursor just after it, and a
   * success leaves it past all whitespace that follows the closing bracket.
   */
  lemma ParenOutcome(st: ParseState, open: char, close: char)
    requires st.Valid()
    ensures var r := ParseParen(st, open, close);
      && (IsEof(st) || st.text[st.idx] != open ==> r == (None, st.idx))
      && (!IsEof(st) && st.text[st.idx] == open && r.0.None? ==> r.1 == st.idx + 1)
      && (r.0.Some? ==> st.text[st.idx] == open && (r.1 == |st.text| || !IsWhitespace(st.text[r.1])))
  {
    if !IsEof(st) && st.text[st.idx] == open {
      var kids := ParseChildren(st.(idx := WhitespaceEnd(st.text, st.idx + 1)));
      if kids.1 < |st.text| && st.text[kids.1] == close {
        WhitespaceRun(st.text, kids.1 + 1);
      }
    }
  }

  /**
   * try_mime_pref's tag follows the first bracket it sees: `[` for
   * STORE_ALL_MATCHING; `(` for STORE_FIRST_MATCHING, possibly right after an
   * unclosed `[` that was given up; a SINGLE_MIME regex is never empty.
   */
  lemma PrefTag(st: ParseState)
    requires st.Valid()
    ensures var r := ParsePref(st);
      && (r.0.Some? && r.0.value.StoreAllMatching? ==> st.text[st.idx] == '[')
      && (r.0.Some? && r.0.value.StoreFirstMatching? ==>
            st.text[st.idx] == '(' ||
            (st.text[st.idx] == '[' && st.idx + 1 < |st.text| && st.text[st.idx + 1] == '('))
      && (r.0.Some? && r.0.value.SingleMime? ==> |r.0.value.regex| > 0)
  {
    var all := ParseParen(st, '[', ']');
    ParenOutcome(st, '[', ']');
    if all.0.None? {
      var afterAll := st.(idx := all.1);
      var first := ParseParen(afterAll, '(', ')');
      ParenOutcome(afterAll, '(', ')');
      if first.0.Some? {
        assert ParsePref(st).0 == Some(StoreFirstMatching(first.0.value));
        assert all.1 == st.idx || (all.1 == st.idx + 1 && st.text[st.idx] == '[');
      } else {
        var token := TryStringSpec(afterAll.(idx := first.1));
        assert ParsePref(st) == (if token.0.Some? then Some(SingleMime(token.0.value)) else None, token.1);
      }
    }
  }

  /** At a closing bracket try_mime_pref fails without moving. */
  lemma PrefStopsAtCloser(st: ParseState)
    requires st.Valid() && !IsEof(st) && st.text[st.idx] in "])"
    ensures ParsePref(st) == (None, st.idx)
  {
    TokenEndIs(st.text, st.idx, st.idx);
  }

  /** Empty or whitespace-only text does not parse. */
  lemma BlankTextFails(text: string, prior: char)
    requires '\0' !in text
    requires forall k :: 0 <= k < |text| ==> IsWhitespace(text[k])
    ensures ParseText(text, prior) == None
  {
    WhitespaceEndIs(text, 0, |text|);
  }

  // ---------------------------------------------------------------------
  // Concrete inputs

  /** Only one pref is parsed: the text after it is not looked at. */
  lemma TrailingTextIgnored(prior: char)
    ensures ParseText("a b", prior) == Some(SingleMime("a"))
  {
    var text := "a b";
    TokenEndIs(text, 0, 1);
    WhitespaceEndIs(text, 0, 0);
    WhitespaceEndIs(text, 1, 2);
    var st := ParseState(text, 0, prior);
    assert IsWhitespace(text[1]);
    assert Window(text, prior, 0, 1) == "a";
    assert TryStringSpec(st) == (Some("a"), 2);
    assert ParseParen(st, '[', ']') == (None, 0);
    assert ParseParen(st, '(', ')') == (None, 0);
    assert ParsePref(st) == (Some(SingleMime("a")), 2);
  }

  /**
   * The shifted copy can still be the token: `aa` at the start, after a byte
   * `a`, ends at the end of the text and yet parses as itself.
   */
  lemma RepeatedByteCopiedExactly()
    ensures !EndsWithOneSpace("aa", 2)
    ensures ParseText("aa", 'a') == Some(SingleMime("aa"))
  {
    var text := "aa";
    TokenEndIs(text, 0, 2);
    WhitespaceEndIs(text, 0, 0);
    var st := ParseState(text, 0, 'a');
    assert Window(text, 'a', -1, 2) == "aa";
    assert TryStringSpec(st) == (Some("aa"), 2);
    assert ParseParen(st, '[', ']') == (None, 0);
    assert ParseParen(st, '(', ')') == (None, 0);
    assert ParsePref(st) == (Some(SingleMime("aa")), 2);
  }

  /** A bare token at the very start, not followed by whitespace, is copied from one byte before the text. */
  lemma LeadingTokenReadsPriorByte(prior: char)
    ensures ParseText("ab", prior) == Some(SingleMime([prior, 'a']))
  {
    var text := "ab";
    TokenEndIs(text, 0, 2);
    WhitespaceEndIs(text, 0, 0);
    var st := ParseState(text, 0, prior);
    assert Window(text, prior, -1, 2) == [prior, 'a'];
    assert TryStringSpec(st) == (Some([prior, 'a']), 2);
    assert ParseParen(st, '[', ']') == (None, 0);
    assert ParseParen(st, '(', ')') == (None, 0);
    assert ParsePref(st) == (Some(SingleMime([prior, 'a'])), 2);
  }

  /** An unclosed `[` gives up after the bracket, and the bare token after it is copied with the bracket. */
  lemma UnclosedBracketBacktracks(prior: char)
    ensures ParseText("[a", prior) == Some(SingleMime("["))
  {
    var text := "[a";
    WhitespaceEndIs(text, 0, 0);
    WhitespaceEndIs(text, 1, 1);
    TokenEndIs(text, 1, 2);
    var st := ParseState(text, 0, prior);
    var inner := ParseState(text, 1, prior);
    var end := ParseState(text, 2, prior);
    assert Window(text, prior, 0, 1) == "[";
    assert TryStringSpec(inner) == (Some("["), 2);
    assert ParseParen(inner, '[', ']') == (None, 1);
    assert ParseParen(inner, '(', ')') == (None, 1);
    assert ParsePref(inner) == (Some(SingleMime("[")), 2);
    assert ParsePref(end) == (None, 2);
    assert ParseChildren(end) == ([], 2);
    assert inner.(idx := 2) == end;
    assert [SingleMime("[")] + [] == [SingleMime("[")];
    assert ParseChildren(inner) == ([SingleMime("[")], 2);
    assert st.(idx := 1) == inner;
    assert ParseParen(st, '[', ']') == (None, 1);
    assert ParsePref(st) == (Some(SingleMime("[")), 2);
  }

  /** An unclosed `[` directly before a complete `(...)` is skipped. */
  lemma UnclosedBracketSkipped(prior: char)
    ensures ParseText("[(a )", prior) == Some(StoreFirstMatching([SingleMime("a")]))
  {
    var text := "[(a )";
    WhitespaceEndIs(text, 0, 0);
    WhitespaceEndIs(text, 1, 1);
    WhitespaceEndIs(text, 2, 2);
    WhitespaceEndIs(text, 3, 4);
    WhitespaceEndIs(text, 5, 5);
    TokenEndIs(text, 2, 3);
    var st := ParseState(text, 0, prior);
    var group := ParseState(text, 1, prior);
    var a := ParseState(text, 2, prior);
    var closer := ParseState(text, 4, prior);
    var end := ParseState(text, 5, prior);
    assert IsWhitespace(text[3]);
    assert Window(text, prior, 2, 1) == "a";
    assert TryStringSpec(a) == (Some("a"), 4);
    assert ParseParen(a, '[', ']') == (None, 2);
    assert ParseParen(a, '(', ')') == (None, 2);
    assert ParsePref(a) == (Some(SingleMime("a")), 4);
    PrefStopsAtCloser(closer);
    assert ParseChildren(closer) == ([], 4);
    assert a.(idx := 4) == closer;
    assert [SingleMime("a")] + [] == [SingleMime("a")];
    assert ParseChildren(a) == ([SingleMime("a")], 4);
    assert group.(idx := 2) == a;
    assert ParseParen(group, '(', ')') == (Some([SingleMime("a")]), 5);
    assert ParseParen(group, '[', ']') == (None, 1);
    assert ParsePref(group) == (Some(StoreFirstMatching([SingleMime("a")])), 5);
    assert ParsePref(end) == (None, 5);
    assert ParseChildren(end) == ([], 5);
    assert group.(idx := 5) == end;
    assert [StoreFirstMatching([SingleMime("a")])] + [] == [StoreFirstMatching([SingleMime("a")])];
    assert ParseChildren(group) == ([StoreFirstMatching([SingleMime("a")])], 5);
    assert st.(idx := 1) == group;
    assert ParseParen(st, '[', ']') == (None, 1);
    assert ParsePref(st) == (Some(StoreFirstMatching([SingleMime("a")])), 5);
  }

  // ---------------------------------------------------------------------
  // Round trip

  /** Prefs that can be written as text: non-empty regexes made of token characters. */
  predicate WellFormed(p: MimePref) {
    match p
    case SingleMime(regex) => |regex| > 0 && forall k :: 0 <= k < |regex| ==> IsTokenChar(regex[k])
    case StoreFirstMatching(subprefs) => AllWellFormed(subprefs)
    case StoreAllMatching(subprefs) => AllWellFormed(subprefs)
  }

  /** Every pref of the list is well formed. */
  predicate AllWellFormed(ps: seq<MimePref>) {
    ps == [] || (WellFormed(ps[0]) && AllWellFormed(ps[1..]))
  }

  /** A pref written out with one space after every token and every closing bracket. */
  function Serialize(p: MimePref): (s: string)
    ensures |s| > 0 && s[|s| - 1] == ' '
  {
    match p
    case SingleMime(regex) => regex + " "
    case StoreFirstMatching(subprefs) => ['('] + SerializeAll(subprefs) + [')', ' ']
    case StoreAllMatching(subprefs) => ['['] + SerializeAll(subprefs) + [']', ' ']
  }

  /** Children written one after the other. */
  function SerializeAll(ps: seq<MimePref>): string {
    if ps == [] then "" else Serialize(ps[0]) + SerializeAll(ps[1..])
  }

  /** Serialized text starts with a character that is neither whitespace nor a closing bracket. */
  lemma SerializeStart(p: MimePref)
    requires WellFormed(p)
    ensures !IsWhitespace(Serialize(p)[0]) && Serialize(p)[0] !in "])"
  {
  }

  /** `s` lies in `text` at offset `i`, character by character. */
  predicate Occurs(text: string, i: nat, s: string)
    decreases |s|
  {
    i + |s| <= |text| && (s == [] || (text[i] == s[0] && Occurs(text, i + 1, s[1..])))
  }

  /** Where `s` occurs at `i`, its `k`-th character is the text's `i + k`-th. */
  lemma {:induction false} OccursAt(text: string, i: nat, s: string, k: nat)
    requires Occurs(text, i, s) && k < |s|
    ensures text[i + k] == s[k]
    decreases k
  {
    if k > 0 {
      OccursAt(text, i + 1, s[1..], k - 1);
    }
  }

  /** Where `s` occurs at `i`, the slice of the text there is `s`. */
  lemma OccursSlices(text: string, i: nat, s: string)
    requires Occurs(text, i, s)
    ensures text[i..i + |s|] == s
  {
    forall k | 0 <= k < |s|
      ensures text[i..i + |s|][k] == s[k]
    {
      OccursAt(text, i, s, k);
    }
  }

  /** Every slice of the text occurs where it was taken. */
  lemma {:induction false} OccursSlice(text: string, i: nat, n: nat)
    requires i + n <= |text|
    ensures Occurs(text, i, text[i..i + n])
    decreases n
  {
    if n > 0 {
      assert text[i..i + n][1..] == text[i + 1..i + 1 + (n - 1)];
      OccursSlice(text, i + 1, n - 1);
    }
  }

  /** The cursor stops at `j`: the end of the text or a character that is not whitespace. */
  predicate StopsAt(text: string, j: nat)
    requires j <= |text|
  {
    j == |text| || !IsWhitespace(text[j])
  }

  /** Where `a + b` occurs, `a` occurs and `b` occurs right after it. */
  lemma {:induction false} OccursSplit(text: string, i: nat, a: string, b: string)
    requires Occurs(text, i, a + b)
    ensures Occurs(text, i, a) && Occurs(text, i + |a|, b)
    decreases |a|
  {
    if a == [] {
      assert a + b == b;
    } else {
      assert (a + b)[0] == a[0] && (a + b)[1..] == a[1..] + b;
      OccursSplit(text, i + 1, a[1..], b);
    }
  }

  /** One more parsed pref in front of the rest of the children. */
  lemma ChildrenCons(st: ParseState, p: MimePref, j: nat, rest: seq<MimePref>, k: nat)
    requires st.Valid() && ParsePref(st) == (Some(p), j)
    requires ParseChildren(st.(idx := j)) == (rest, k)
    ensures ParseChildren(st) == ([p] + rest, k)
  {
  }

  /** Where a bare token `regex ' '` occurs, the runs try_string measures. */
  lemma SingleText(text: string, i: nat, regex: string)
    requires WellFormed(SingleMime(regex))
    requires Occurs(text, i, regex + " ") && StopsAt(text, i + |regex| + 1)
    ensures i + |regex| < |text| && IsTokenChar(text[i])
    ensures TokenEnd(text, i) == i + |regex| && IsWhitespace(text[i + |regex|])
    ensures WhitespaceEnd(text, i + |regex|) == i + |regex| + 1
    ensures text[i..i + |regex|] == regex
  {
    var n := |regex|;
    OccursSplit(text, i, regex, " ");
    OccursAt(text, i + n, " ", 0);
    forall k | i <= k < i + n
      ensures IsTokenChar(text[k])
    {
      OccursAt(text, i, regex, k - i);
    }
    TokenEndIs(text, i, i + n);
    WhitespaceEndIs(text, i + n, i + n + 1);
    OccursSlices(text, i, regex);
  }

  /** A bare token written out at `i`, ended by one space, parses back to itself. */
  lemma SingleSerialized(text: string, prior: char, i: nat, regex: string)
    requires '\0' !in text && WellFormed(SingleMime(regex))
    requires Occurs(text, i, regex + " ") && StopsAt(text, i + |regex| + 1)
    ensures ParsePref(ParseState(text, i, prior)) == (Some(SingleMime(regex)), i + |regex| + 1)
  {
    var st := ParseState(text, i, prior);
    SingleText(text, i, regex);
    TryStringOneSpace(st, |regex|);
    assert ParseParen(st, '[', ']') == (None, i) && ParseParen(st, '(', ')') == (None, i);
  }

  /** try_string on a token of `n` characters followed by exactly one whitespace character. */
  lemma TryStringOneSpace(st: ParseState, n: nat)
    requires st.Valid() && n > 0 && st.idx + n < |st.text|
    requires TokenEnd(st.text, st.idx) == st.idx + n && IsWhitespace(st.text[st.idx + n])
    requires WhitespaceEnd(st.text, st.idx + n) == st.idx + n + 1
    ensures TryStringSpec(st) == (Some(st.text[st.idx..st.idx + n]), st.idx + n + 1)
  {
    assert Window(st.text, st.prior, st.idx, n) == st.text[st.idx..st.idx + n];
  }

  /** Where a group `open body close ' '` occurs, the cursor positions the parser reaches. */
  lemma GroupText(text: string, i: nat, open: char, close: char, body: string)
    requires Occurs(text, i, [open] + body + [close, ' ']) && StopsAt(text, i + |body| + 3)
    requires body == [] || !IsWhitespace(body[0])
    requires !IsWhitespace(close)
    ensures text[i] == open && Occurs(text, i + 1, body)
    ensures text[i + 1 + |body|] == close
    ensures WhitespaceEnd(text, i + 1) == i + 1
    ensures WhitespaceEnd(text, i + |body| + 2) == i + |body| + 3
  {
    var n := |body|;
    assert [open] + body + [close, ' '] == [open] + (body + [close, ' ']);
    OccursSplit(text, i, [open], body + [close, ' ']);
    OccursSplit(text, i + 1, body, [close, ' ']);
    OccursAt(text, i, [open], 0);
    OccursAt(text, i + 1 + n, [close, ' '], 0);
    OccursAt(text, i + 1 + n, [close, ' '], 1);
    if body != [] {
      OccursAt(text, i + 1, body, 0);
    }
    WhitespaceEndIs(text, i + 1, i + 1);
    WhitespaceEndIs(text, i + n + 2, i + n + 3);
  }

  /** Parsing a bracketed group written out at `i`. */
  lemma {:induction false} ParenSerialized(text: string, prior: char, i: nat, open: char, close: char, ps: seq<MimePref>)
    requires '\0' !in text && close in "])" && AllWellFormed(ps)
    requires Occurs(text, i, [open] + SerializeAll(ps) + [close, ' '])
    requires StopsAt(text, i + |SerializeAll(ps)| + 3)
    ensures ParseParen(ParseState(text, i, prior), open, close) == (Some(ps), i + |SerializeAll(ps)| + 3)
    decreases ps, 1
  {
    var body := SerializeAll(ps);
    if ps != [] {
      SerializeStart(ps[0]);
    }
    GroupText(text, i, open, close, body);
    var st, inner := ParseState(text, i, prior), ParseState(text, i + 1, prior);
    assert st.(idx := WhitespaceEnd(text, i + 1)) == inner;
    ChildrenSerialized(text, prior, i + 1, ps);
    ParenClosed(st, open, close, ps, i + 1 + |body|);
  }

  /** Parsing one pref written out at `i` gives it back and stops right after it. */
  lemma {:induction false} PrefSerialized(text: string, prior: char, i: nat, p: MimePref)
    requires '\0' !in text && WellFormed(p)
    requires Occurs(text, i, Serialize(p)) && StopsAt(text, i + |Serialize(p)|)
    ensures ParsePref(ParseState(text, i, prior)) == (Some(p), i + |Serialize(p)|)
    decreases p, 2
  {
    var st := ParseState(text, i, prior);
    match p
    case SingleMime(regex) =>
      SingleSerialized(text, prior, i, regex);
    case StoreFirstMatching(ps) =>
      assert text[i] == '(' by {
        OccursAt(text, i, Serialize(p), 0);
      }
      assert ParseParen(st, '[', ']') == (None, i);
      ParenSerialized(text, prior, i, '(', ')', ps);
    case StoreAllMatching(ps) =>
      ParenSerialized(text, prior, i, '[', ']', ps);
  }

  /** Where `head + tail` occurs before a closing bracket, `head` ends before `tail` or that bracket. */
  lemma ConsText(text: string, i: nat, head: string, tail: string)
    requires Occurs(text, i, head + tail) && i + |head| + |tail| < |text|
    requires text[i + |head| + |tail|] in "])"
    requires tail == [] || !IsWhitespace(tail[0])
    ensures Occurs(text, i, head) && StopsAt(text, i + |head|)
    ensures Occurs(text, i + |head|, tail)
  {
    OccursSplit(text, i, head, tail);
    if tail != [] {
      OccursAt(text, i + |head|, tail, 0);
    }
  }

  /** Where non-empty children are written out, the first one and then the rest. */
  lemma ChildrenText(text: string, i: nat, ps: seq<MimePref>)
    requires ps != [] && AllWellFormed(ps)
    requires Occurs(text, i, SerializeAll(ps)) && i + |SerializeAll(ps)| < |text|
    requires text[i + |SerializeAll(ps)|] in "])"
    ensures WellFormed(ps[0]) && AllWellFormed(ps[1..])
    ensures Occurs(text, i, Serialize(ps[0])) && StopsAt(text, i + |Serialize(ps[0])|)
    ensures Occurs(text, i + |Serialize(ps[0])|, SerializeAll(ps[1..]))
    ensures |Serialize(ps[0])| + |SerializeAll(ps[1..])| == |SerializeAll(ps)|
  {
    var head, tail := Serialize(ps[0]), SerializeAll(ps[1..]);
    assert SerializeAll(ps) == head + tail;
    if ps[1..] != [] {
      SerializeStart(ps[1..][0]);
    }
    ConsText(text, i, head, tail);
  }

  /** Parsing children written out at `i` and followed by a closing bracket gives them back in order. */
  lemma {:induction false} ChildrenSerialized(text: string, prior: char, i: nat, ps: seq<MimePref>)
    requires '\0' !in text && AllWellFormed(ps)
    requires Occurs(text, i, SerializeAll(ps)) && i + |SerializeAll(ps)| < |text|
    requires text[i + |SerializeAll(ps)|] in "])"
    ensures ParseChildren(ParseState(text, i, prior)) == (ps, i + |SerializeAll(ps)|)
    decreases ps, 0
  {
    if ps == [] {
      PrefStopsAtCloser(ParseState(text, i, prior));
    } else {
      assert [ps[0]] + ps[1..] == ps;
      ChildrenText(text, i, ps);
      var j := i + |Serialize(ps[0])|;
      PrefSerialized(text, prior, i, ps[0]);
      ChildrenSerialized(text, prior, j, ps[1..]);
      ChildrenCons(ParseState(text, i, prior), ps[0], j, ps[1..], i + |SerializeAll(ps)|);
    }
  }

  /**
   * Any well-formed pref, written out and followed by text that does not start
   * with whitespace, parses back to itself: children come back in source
   * order, and the text after the pref is not looked at.
   */
  lemma ParseSerialized(p: MimePref, rest: string, prior: char)
    requires WellFormed(p) && '\0' !in rest && (rest == [] || !IsWhitespace(rest[0]))
    requires '\0' !in Serialize(p)
    ensures ParseText(Serialize(p) + rest, prior) == Some(p)
  {
    var text := Serialize(p) + rest;
    SerializeStart(p);
    WhitespaceEndIs(text, 0, 0);
    OccursSlice(text, 0, |Serialize(p)|);
    assert text[0..|Serialize(p)|] == Serialize(p);
    if rest != [] {
      assert text[|Serialize(p)|] == rest[0];
    }
    PrefSerialized(text, prior, 0, p);
  }
}
