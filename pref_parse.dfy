/**
 * The recursive-descent parser for the bracketed preference-tree language of
 * pref_parse.c.
 *
 * Each C function that moves the shared cursor `state->idx` is a method that
 * takes the parse state and returns the state it leaves behind. Each method is
 * proved equal to a recursive specification function (WhitespaceEnd,
 * TryStringSpec, ParseParen, ParseChildren, ParsePref); the properties of the
 * parser are lemmas about those functions.
 */
module PrefParse {
  import opened Wrappers
  import ZzzList

  /** `struct mime_pref`: the type tag and the union become one datatype. */
  datatype MimePref =
    | SingleMime(regex: string)
    | StoreFirstMatching(subprefs: seq<MimePref>)
    | StoreAllMatching(subprefs: seq<MimePref>)

  /**
   * `struct parse_state`. `text_len` is `|text|`. `prior` is the byte that
   * lies in memory just before `text[0]`: try_string copies it when a bare
   * token starts the text and is not followed by exactly one whitespace
   * character (the copy then starts one byte before the text).
   */
  datatype ParseState = ParseState(text: string, idx: nat, prior: char)
  {
    /** The cursor is inside the text, and the text is a C string (no NUL). */
    ghost predicate Valid() {
      idx <= |text| && '\0' !in text
    }
  }

  /** The four characters take_whitespace accepts. */
  predicate IsWhitespace(c: char) {
    c == ' ' || c == '\n' || c == '\r' || c == '\t'
  }

  /** A character that can be part of a bare token. */
  predicate IsTokenChar(c: char) {
    !IsWhitespace(c) && c !in "[]()"
  }

  // ---------------------------------------------------------------------
  // Read-only queries

  /** is_eof. */
  function IsEof(st: ParseState): (eof: bool)
    ensures st.Valid() ==> (eof <==> st.idx == |st.text|)
  {
    st.idx >= |st.text|
  }

  /** peek_char: NUL exactly at the end of the text, else the current character. */
  function PeekChar(st: ParseState): (c: char)
    requires st.Valid()
    ensures c == '\0' <==> IsEof(st)
    ensures !IsEof(st) ==> c == st.text[st.idx]
  {
    if IsEof(st) then '\0' else st.text[st.idx]
  }

  /** string_contains: walks the C string up to its NUL looking for `c`. */
  method StringContains(str: string, c: char) returns (found: bool)
    requires '\0' !in str
    ensures found <==> c in str
  {
    var i := 0;
    while i < |str|
      invariant 0 <= i <= |str|
      invariant c !in str[..i]
    {
      if str[i] == c {
        return true;
      }
      assert str[..i + 1] == str[..i] + [str[i]];
      i := i + 1;
    }
    assert str[..i] == str;
    return false;
  }

  // ---------------------------------------------------------------------
  // Specification functions

  /** Where the run of whitespace starting at `i` ends. */
  function WhitespaceEnd(text: string, i: nat): (j: nat)
    requires i <= |text|
    ensures i <= j <= |text|
    decreases |text| - i
  {
    if i < |text| && IsWhitespace(text[i]) then WhitespaceEnd(text, i + 1) else i
  }

  /** WhitespaceEnd ends the maximal run: whitespace up to it, none at it. */
  lemma {:induction false} WhitespaceRun(text: string, i: nat)
    requires i <= |text|
    ensures forall k :: i <= k < WhitespaceEnd(text, i) ==> IsWhitespace(text[k])
    ensures WhitespaceEnd(text, i) == |text| || !IsWhitespace(text[WhitespaceEnd(text, i)])
    decreases |text| - i
  {
    if i < |text| && IsWhitespace(text[i]) {
      WhitespaceRun(text, i + 1);
    }
  }

  /** Where the run of token characters starting at `i` ends. */
  function TokenEnd(text: string, i: nat): (j: nat)
    requires i <= |text|
    ensures i <= j <= |text|
    decreases |text| - i
  {
    if i < |text| && IsTokenChar(text[i]) then TokenEnd(text, i + 1) else i
  }

  /** TokenEnd ends the maximal run: token characters up to it, none at it. */
  lemma {:induction false} TokenRun(text: string, i: nat)
    requires i <= |text|
    ensures forall k :: i <= k < TokenEnd(text, i) ==> IsTokenChar(text[k])
    ensures TokenEnd(text, i) == |text| || !IsTokenChar(text[TokenEnd(text, i)])
    decreases |text| - i
  {
    if i < |text| && IsTokenChar(text[i]) {
      TokenRun(text, i + 1);
    }
  }

  /**
   * The `len` bytes of memory starting at offset `lo` of the text, where
   * offset -1 is the byte just before the text.
   */
  function Window(text: string, prior: char, lo: int, len: nat): (w: string)
    requires -1 <= lo && lo + len <= |text|
    ensures |w| == len
    ensures lo >= 0 ==> w == text[lo..lo + len]
  {
    if lo >= 0 then text[lo..lo + len]
    else if len == 0 then []
    else [prior] + text[..len - 1]
  }

  /**
   * try_string: at the end of the text it fails without moving. Otherwise it
   * consumes the token characters and, if a whitespace character ends them, the
   * whole whitespace run after them; it fails when there was no token character,
   * and on success returns the `len` bytes that end one byte before the final
   * cursor.
   */
  function TryStringSpec(st: ParseState): (r: (Option<string>, nat))
    requires st.Valid()
    ensures st.idx <= r.1 <= |st.text|
    ensures IsEof(st) ==> r == (None, st.idx)
    ensures r.0.None? <==> IsEof(st) || TokenEnd(st.text, st.idx) == st.idx
    ensures r.0.Some? ==> r.1 > st.idx && |r.0.value| == TokenEnd(st.text, st.idx) - st.idx
  {
    if IsEof(st) then (None, st.idx)
    else
      var tokenEnd := TokenEnd(st.text, st.idx);
      var len := tokenEnd - st.idx;
      var final :=
        if tokenEnd < |st.text| && IsWhitespace(st.text[tokenEnd])
        then WhitespaceEnd(st.text, tokenEnd) else tokenEnd;
      if len == 0 then (None, final)
      else (Some(Window(st.text, st.prior, final - len - 1, len)), final)
  }

  /**
   * try_paren_pref with the bracket pair (`open`, `close`): without `open` at
   * the cursor it fails without moving; otherwise it parses children after the
   * whitespace that follows `open`, and succeeds only if `close` follows them,
   * consuming the whitespace after `close`. When `close` is missing the cursor
   * is left just after `open`.
   */
  function ParseParen(st: ParseState, open: char, close: char): (r: (Option<seq<MimePref>>, nat))
    requires st.Valid()
    ensures st.idx <= r.1 <= |st.text|
    ensures r.0.Some? ==> r.1 > st.idx
    ensures r.0.None? ==> r.1 == st.idx || (r.1 == st.idx + 1 && st.text[st.idx] == open)
    decreases |st.text| - st.idx, 1
  {
    if IsEof(st) || st.text[st.idx] != open then (None, st.idx)
    else
      var start := st.idx + 1;
      var kids := ParseChildren(st.(idx := WhitespaceEnd(st.text, start)));
      var k := kids.1;
      if k < |st.text| && st.text[k] == close then (Some(kids.0), WhitespaceEnd(st.text, k + 1))
      else (None, start)
  }

  /** The `while (try_mime_pref(...))` loop of try_paren_pref: prefs until one fails. */
  function ParseChildren(st: ParseState): (r: (seq<MimePref>, nat))
    requires st.Valid()
    ensures st.idx <= r.1 <= |st.text|
    decreases |st.text| - st.idx, 3
  {
    var first := ParsePref(st);
    if first.0.None? then ([], first.1)
    else
      var rest := ParseChildren(st.(idx := first.1));
      ([first.0.value] + rest.0, rest.1)
  }

  /**
   * try_mime_pref: `[...]`, then `(...)`, then a bare token, each tried where
   * the previous alternative left the cursor. Success always moves the cursor.
   */
  function ParsePref(st: ParseState): (r: (Option<MimePref>, nat))
    requires st.Valid()
    ensures st.idx <= r.1 <= |st.text|
    ensures r.0.Some? ==> r.1 > st.idx
    decreases |st.text| - st.idx, 2
  {
    var all := ParseParen(st, '[', ']');
    if all.0.Some? then (Some(StoreAllMatching(all.0.value)), all.1)
    else
      var first := ParseParen(st.(idx := all.1), '(', ')');
      if first.0.Some? then (Some(StoreFirstMatching(first.0.value)), first.1)
      else
        var token := TryStringSpec(st.(idx := first.1));
        if token.0.Some? then (Some(SingleMime(token.0.value)), token.1)
        else (None, token.1)
  }

  /** parse_mime_prefs: skip leading whitespace, then parse one pref. */
  function ParseText(text: string, prior: char): Option<MimePref>
    requires '\0' !in text
  {
    ParsePref(ParseState(text, WhitespaceEnd(text, 0), prior)).0
  }

  // ---------------------------------------------------------------------
  // The C functions, step by step

  /** try_char: advances by one exactly when the next character is `c`. */
  method TryChar(st: ParseState, c: char) returns (ok: bool, st': ParseState)
    requires st.Valid() && c != '\0'
    ensures st'.Valid() && st'.text == st.text && st'.prior == st.prior
    ensures ok <==> !IsEof(st) && st.text[st.idx] == c
    ensures st'.idx == if ok then st.idx + 1 else st.idx
  {
    if PeekChar(st) == c {
      return true, st.(idx := st.idx + 1);
    } else {
      return false, st;
    }
  }

  /** take_whitespace: consumes the maximal whitespace run; true iff it consumed any. */
  method TakeWhitespace(st: ParseState) returns (took: bool, st': ParseState)
    requires st.Valid()
    ensures st' == st.(idx := WhitespaceEnd(st.text, st.idx))
    ensures took <==> st'.idx > st.idx
  {
    took := false;
    st' := st;
    while true
      invariant st'.Valid() && st' == st.(idx := st'.idx) && st.idx <= st'.idx
      invariant WhitespaceEnd(st.text, st'.idx) == WhitespaceEnd(st.text, st.idx)
      invariant took <==> st'.idx > st.idx
      decreases |st.text| - st'.idx
    {
      if IsEof(st') {
        break;
      }
      var ok;
      ok, st' := TryChar(st', ' ');
      if !ok {
        ok, st' := TryChar(st', '\n');
      }
      if !ok {
        ok, st' := TryChar(st', '\r');
      }
      if !ok {
        ok, st' := TryChar(st', '\t');
      }
      if !ok {
        break;
      }
      took := true;
    }
  }

  /** try_string. */
  method TryString(st: ParseState) returns (regex: Option<string>, st': ParseState)
    requires st.Valid()
    ensures (regex, st'.idx) == TryStringSpec(st)
    ensures st' == st.(idx := st'.idx)
  {
    if IsEof(st) {
      return None, st;
    }
    var stringLen := 0;
    st' := st;
    ghost var tokenEnd := TokenEnd(st.text, st.idx);
    ghost var final :=
      if tokenEnd < |st.text| && IsWhitespace(st.text[tokenEnd]) then WhitespaceEnd(st.text, tokenEnd) else tokenEnd;
    TokenRun(st.text, st.idx);
    while true
      invariant st'.Valid() && st' == st.(idx := st'.idx)
      invariant st.idx <= st'.idx <= tokenEnd
      invariant stringLen == st'.idx - st.idx
      decreases |st.text| - st'.idx
    {
      if IsEof(st') {
        assert st'.idx == tokenEnd == final;
        break;
      }
      var took;
      ghost var at := st'.idx;
      took, st' := TakeWhitespace(st');
      if took {
        assert at == tokenEnd && st'.idx == final;
        break;
      }
      var isBracket := StringContains("[]()", PeekChar(st'));
      if isBracket {
        assert st'.idx == tokenEnd == final;
        break;
      }
      stringLen := stringLen + 1;
      st' := st'.(idx := st'.idx + 1);
    }
    assert st'.idx == final && stringLen == tokenEnd - st.idx;
    if stringLen == 0 {
      return None, st';
    }
    regex := Some(Window(st.text, st.prior, st'.idx - stringLen - 1, stringLen));
  }

  /**
   * The loop of try_paren_pref: prepends every parsed pref to the list, stops
   * at the first failure (keeping where it left the cursor), then reverses the
   * list into parse order.
   */
  method TryChildren(first: ParseState) returns (kids: seq<MimePref>, st': ParseState)
    requires first.Valid()
    ensures (kids, st'.idx) == ParseChildren(first)
    ensures st' == first.(idx := st'.idx)
    decreases |first.text| - first.idx, 3
  {
    st' := first;
    var acc: seq<MimePref> := [];  // *subprefs = NULL
    assert ZzzList.Reversed(acc) + ParseChildren(st').0 == ParseChildren(st').0;
    while true
      invariant st'.Valid() && st' == first.(idx := st'.idx) && first.idx <= st'.idx
      invariant ParseChildren(first) == (ZzzList.Reversed(acc) + ParseChildren(st').0, ParseChildren(st').1)
      decreases |first.text| - st'.idx
    {
      var pref, next := TryMimePref(st');
      if pref.None? {
        assert ParseChildren(st') == ([], next.idx);
        assert ZzzList.Reversed(acc) + [] == ZzzList.Reversed(acc);
        st' := next;
        break;
      }
      assert ParseChildren(st') == ([pref.value] + ParseChildren(next).0, ParseChildren(next).1);
      ZzzList.ReversedPrepend(pref.value, acc);
      assert ZzzList.Reversed(acc) + ([pref.value] + ParseChildren(next).0)
          == (ZzzList.Reversed(acc) + [pref.value]) + ParseChildren(next).0;
      acc := [pref.value] + acc;  // zzz_list_prepend
      st' := next;
    }
    kids := ZzzList.Reversed(acc);  // zzz_list_reverse
  }

  /** ParseParen when `open` is at the cursor and the children end before `close`. */
  lemma ParenClosed(st: ParseState, open: char, close: char, kids: seq<MimePref>, kidsEnd: nat)
    requires st.Valid() && !IsEof(st) && st.text[st.idx] == open
    requires (kids, kidsEnd) == ParseChildren(st.(idx := WhitespaceEnd(st.text, st.idx + 1)))
    requires kidsEnd < |st.text| && st.text[kidsEnd] == close
    ensures ParseParen(st, open, close) == (Some(kids), WhitespaceEnd(st.text, kidsEnd + 1))
  {
  }

  /** ParseParen when `open` is at the cursor but `close` does not follow the children. */
  lemma ParenUnclosed(st: ParseState, open: char, close: char, kids: seq<MimePref>, kidsEnd: nat)
    requires st.Valid() && !IsEof(st) && st.text[st.idx] == open
    requires (kids, kidsEnd) == ParseChildren(st.(idx := WhitespaceEnd(st.text, st.idx + 1)))
    requires !(kidsEnd < |st.text| && st.text[kidsEnd] == close)
    ensures ParseParen(st, open, close) == (None, st.idx + 1)
  {
  }

  /** try_paren_pref: `parenChars` is the two-character string of the bracket pair. */
  method TryParenPref(st: ParseState, parenChars: string) returns (subprefs: Option<seq<MimePref>>, st': ParseState)
    requires st.Valid() && |parenChars| == 2 && '\0' !in parenChars
    ensures (subprefs, st'.idx) == ParseParen(st, parenChars[0], parenChars[1])
    ensures st' == st.(idx := st'.idx)
    decreases |st.text| - st.idx, 1
  {
    var ok;
    ok, st' := TryChar(st, parenChars[0]);
    if !ok {
      return None, st';
    }
    var startingIdx := st'.idx;
    var took;
    took, st' := TakeWhitespace(st');
    var kids;
    kids, st' := TryChildren(st');
    ghost var kidsEnd := st'.idx;
    ok, st' := TryChar(st', parenChars[1]);
    if ok {
      took, st' := TakeWhitespace(st');
      subprefs := Some(kids);
      ParenClosed(st, parenChars[0], parenChars[1], kids, kidsEnd);
    } else {
      st' := st'.(idx := startingIdx);
      subprefs := None;
      ParenUnclosed(st, parenChars[0], parenChars[1], kids, kidsEnd);
    }
  }

  /** try_mime_pref. */
  method TryMimePref(st: ParseState) returns (pref: Option<MimePref>, st': ParseState)
    requires st.Valid()
    ensures (pref, st'.idx) == ParsePref(st)
    ensures st' == st.(idx := st'.idx)
    decreases |st.text| - st.idx, 2
  {
    var subprefs;
    subprefs, st' := TryParenPref(st, "[]");
    if subprefs.Some? {
      return Some(StoreAllMatching(subprefs.value)), st';
    }
    subprefs, st' := TryParenPref(st', "()");
    if subprefs.Some? {
      return Some(StoreFirstMatching(subprefs.value)), st';
    }
    var regex;
    regex, st' := TryString(st');
    if regex.Some? {
      return Some(SingleMime(regex.value)), st';
    }
    return None, st';
  }

  /** parse_mime_prefs: `prior` is the byte in memory before the text. */
  method ParseMimePrefs(text: string, prior: char) returns (pref: Option<MimePref>)
    requires '\0' !in text
    ensures pref == ParseText(text, prior)
  {
    var st := ParseState(text, 0, prior);
    var took;
    took, st := TakeWhitespace(st);
    var rest;
    pref, rest := TryMimePref(st);
  }
}
