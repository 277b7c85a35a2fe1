/**
 * The preference-tree configuration of read_config.c: where the file lives,
 * the chunked read loop that loads it, and the choice between the file and
 * the built-in default text.
 *
 * Opening and reading the file are not modelled: `file` is the file's
 * content when it opens and None when it does not. `prior` is the byte in
 * memory just before the parsed text (see PrefParse.ParseState).
 */
module ReadConfig {
  import opened Wrappers
  import opened LibC
  import opened PrefParse
  import opened PrefParseFacts
  import Daemon

  /** EXIT_FAILURE. */
  const ExitFailure := 1

  /** The size of each read. */
  const ChunkSize := 1024

  /** config_path: `$XDG_CONFIG_HOME/zzzclip`, else `$HOME/.config/zzzclip`; with neither, EXIT_FAILURE. */
  function ConfigPath(env: Env): (r: Result<string>)
    ensures r.Failure? <==> "XDG_CONFIG_HOME" !in env && "HOME" !in env
    ensures r.Failure? ==> r.status == ExitFailure
    ensures "XDG_CONFIG_HOME" in env ==> r.value == env["XDG_CONFIG_HOME"] + "/zzzclip"
    ensures "XDG_CONFIG_HOME" !in env && "HOME" in env ==> r.value == env["HOME"] + "/.config/zzzclip"
  {
    match GetEnv(env, "XDG_CONFIG_HOME")
    case Some(dir) => Success(dir + "/zzzclip")
    case None =>
      match GetEnv(env, "HOME")
      case Some(home) => Success(home + "/.config" + "/zzzclip")
      case None => Failure(ExitFailure)
  }

  /**
   * The configuration file sits in the directory that holds the daemon's
   * precedence file, and both lookups fail together (with different statuses).
   */
  lemma ConfigBesideMimes(env: Env)
    ensures ConfigPath(env).Success? <==> Daemon.MimesPath(env).Success?
    ensures ConfigPath(env).Failure? ==> ConfigPath(env).status == ExitFailure && Daemon.MimesPath(env).status == 2
    ensures ConfigPath(env).Success? ==>
              exists dir :: ConfigPath(env).value == dir + "/zzzclip" && Daemon.MimesPath(env).value == dir + "/zzz_mimes"
  {
    if "XDG_CONFIG_HOME" in env {
      var dir := env["XDG_CONFIG_HOME"];
      assert ConfigPath(env).value == dir + "/zzzclip";
    } else if "HOME" in env {
      var dir := env["HOME"] + "/.config";
      assert ConfigPath(env).value == dir + "/zzzclip";
    }
  }

  /**
   * The read loop of get_config over a file holding `file`. Each read asks
   * for ChunkSize bytes and gets what is left, up to that; the loop stops at
   * the first short read. Every read writes at the start of the buffer, so
   * `head` is what the buffer starts with afterwards. Before each read the
   * capacity is doubled when the bytes held, a chunk and the NUL would not fit.
   */
  method ReadChunks(file: string) returns (head: string, len: nat, cap: nat)
    ensures len == |file|
    ensures len < cap && cap <= 2 * (len + ChunkSize + 1)
    ensures |file| % ChunkSize <= |head| && head[..|file| % ChunkSize] == file[|file| - |file| % ChunkSize..]
    ensures |file| <= ChunkSize ==> head == file
  {
    head, len, cap := [], 0, ChunkSize + 1;
    ghost var chunks: nat := 0;
    while true
      invariant len == chunks * ChunkSize && len <= |file| && (len == 0 || ChunkSize <= len)
      invariant ChunkSize + 1 <= cap && len < cap && cap <= 2 * (len + ChunkSize + 1)
      invariant head == if len == 0 then [] else file[len - ChunkSize..len]
      decreases |file| - len
    {
      if len + ChunkSize + 1 > cap {
        cap := cap * 2;
      }
      assert len + ChunkSize < cap;
      var n := if |file| - len < ChunkSize then |file| - len else ChunkSize;
      NextHead(file, len, n, head);
      head := file[len..len + n] + (if n < |head| then head[n..] else []);
      len := len + n;
      if n != ChunkSize {
        DivMod(chunks, n, |file|);
        if |file| == ChunkSize {
          assert len == ChunkSize && n == 0;
          assert file[0..ChunkSize] == file;
        }
        return;
      }
      chunks := chunks + 1;
    }
  }

  /** A read of `n` bytes at offset `len` overwrites the first `n` bytes of the previous chunk. */
  lemma NextHead(file: string, len: nat, n: nat, head: string)
    requires len + n <= |file| && n <= ChunkSize && (len == 0 || ChunkSize <= len)
    requires head == if len == 0 then [] else file[len - ChunkSize..len]
    ensures var next := file[len..len + n] + (if n < |head| then head[n..] else []);
      && n <= |next| && next[..n] == file[len..len + n]
      && (n == ChunkSize || len == 0 ==> next == file[len..len + n])
  {
    var chunk := file[len..len + n];
    if n == ChunkSize || len == 0 {
      assert !(n < |head|) && chunk + [] == chunk;
    }
  }

  /** A length of `q` full chunks and `r` more bytes leaves `r` over. */
  lemma DivMod(q: nat, r: nat, size: nat)
    requires r < ChunkSize && size == q * ChunkSize + r
    ensures size % ChunkSize == r
  {
  }

  /** The built-in configuration text. */
  const DefaultText: string :=
    "[(" + "image/png" + " " + "image/jpeg" + " " + "image/*" + ")(" +
    "UTF8_STRING" + " " + "text/plain;charset=utf8" + " " + "TEXT" + " " + "text/plain" + ")]"

  /**
   * What the default text parses to. A bare token closed by a bracket is
   * copied from one byte before it, so the last regex of each group comes
   * out shifted: " image/" and " text/plai".
   */
  const DefaultPref: MimePref :=
    StoreAllMatching([
      StoreFirstMatching([SingleMime("image/png"), SingleMime("image/jpeg"), SingleMime(" image/")]),
      StoreFirstMatching([SingleMime("UTF8_STRING"), SingleMime("text/plain;charset=utf8"),
                          SingleMime("TEXT"), SingleMime(" text/plai")])])

  /** A bare token at `i`, followed by one space and then something else, parses to itself. */
  lemma TokenThenSpace(text: string, prior: char, i: nat, tok: string)
    requires '\0' !in text && WellFormed(SingleMime(tok))
    requires i + |tok| + 1 < |text| && text[i..i + |tok|] == tok
    requires text[i + |tok|] == ' ' && !IsWhitespace(text[i + |tok| + 1])
    ensures ParsePref(ParseState(text, i, prior)) == (Some(SingleMime(tok)), i + |tok| + 1)
  {
    var n := |tok|;
    var st := ParseState(text, i, prior);
    forall k | i <= k < i + n
      ensures IsTokenChar(text[k])
    {
      assert text[k] == tok[k - i];
    }
    TokenEndIs(text, i, i + n);
    WhitespaceEndIs(text, i + n, i + n + 1);
    TryStringOneSpace(st, n);
    assert text[i] == tok[0];
    assert ParseParen(st, '[', ']') == (None, i) && ParseParen(st, '(', ')') == (None, i);
  }

  /** A bare token at `i` ended by a closing bracket is copied from one byte before it. */
  lemma TokenThenCloser(text: string, prior: char, i: nat, tok: string)
    requires '\0' !in text && WellFormed(SingleMime(tok)) && i >= 1
    requires i + |tok| < |text| && text[i..i + |tok|] == tok && text[i + |tok|] in "])"
    ensures ParsePref(ParseState(text, i, prior)) == (Some(SingleMime(text[i - 1..i + |tok| - 1])), i + |tok|)
  {
    var n := |tok|;
    var st := ParseState(text, i, prior);
    forall k | i <= k < i + n
      ensures IsTokenChar(text[k])
    {
      assert text[k] == tok[k - i];
    }
    TokenEndIs(text, i, i + n);
    assert TryStringSpec(st) == (Some(text[i - 1..i + n - 1]), i + n);
    assert text[i] == tok[0];
    assert ParseParen(st, '[', ']') == (None, i) && ParseParen(st, '(', ')') == (None, i);
  }

  /** Where the brackets of the default text lie; it holds no NUL. */
  predicate BracketLayout(text: string)
  {
    && |text| == 85 && '\0' !in text
    && text[0] == '[' && text[1] == '(' && text[30] == ')' && text[31] == '(' && text[83] == ')' && text[84] == ']'
  }

  /** Where the tokens of the first group lie. */
  predicate ImagesLayout(text: string)
  {
    && |text| == 85
    && text[2..11] == "image/png" && text[11] == ' '
    && text[12..22] == "image/jpeg" && text[22] == ' '
    && text[23..30] == "image/*" && text[22..29] == " image/" && text[30] == ')'
  }

  /** Where the tokens of the second group lie. */
  predicate TextsLayout(text: string)
  {
    && |text| == 85
    && text[32..43] == "UTF8_STRING" && text[43] == ' '
    && text[44..67] == "text/plain;charset=utf8" && text[67] == ' '
    && text[68..72] == "TEXT" && text[72] == ' '
    && text[73..83] == "text/plain" && text[72..82] == " text/plai" && text[83] == ')'
  }

  /** Where each token, space and bracket of the default text lies. */
  predicate DefaultLayout(text: string)
  {
    BracketLayout(text) && ImagesLayout(text) && TextsLayout(text)
  }

  lemma DefaultBrackets()
    ensures BracketLayout(DefaultText)
  {
  }

  lemma DefaultImages()
    ensures ImagesLayout(DefaultText)
  {
    var text := DefaultText;
    assert text[2..11] == "image/png";
    assert text[12..22] == "image/jpeg";
    assert text[23..30] == "image/*" && text[22] == ' ';
    SpaceBefore(text, 23, "image/*");
    assert " " + "image/*"[..6] == " image/";
  }

  lemma DefaultTexts()
    ensures TextsLayout(DefaultText)
  {
    DefaultTextsFirst();
    DefaultTextsLast();
  }

  /** The first two tokens of the second group. */
  lemma DefaultTextsFirst()
    ensures DefaultText[32..43] == "UTF8_STRING" && DefaultText[43] == ' '
    ensures DefaultText[44..67] == "text/plain;charset=utf8" && DefaultText[67] == ' '
  {
    var text := DefaultText;
    assert text[32..43] == "UTF8_STRING";
    assert text[44..67] == "text/plain;charset=utf8";
  }

  /** The last two tokens of the second group and the closing brackets. */
  lemma DefaultTextsLast()
    ensures |DefaultText| == 85 && DefaultText[68..72] == "TEXT" && DefaultText[72] == ' '
    ensures DefaultText[73..83] == "text/plain" && DefaultText[72..82] == " text/plai" && DefaultText[83] == ')'
  {
    var text := DefaultText;
    assert text[68..72] == "TEXT";
    assert text[73..83] == "text/plain" && text[72] == ' ';
    SpaceBefore(text, 73, "text/plain");
    assert " " + "text/plain"[..9] == " text/plai";
  }

  /** The bytes one place before a token that follows a space. */
  lemma SpaceBefore(text: string, i: nat, tok: string)
    requires 1 <= i && |tok| >= 1 && i + |tok| <= |text| && text[i - 1] == ' ' && text[i..i + |tok|] == tok
    ensures text[i - 1..i + |tok| - 1] == " " + tok[..|tok| - 1]
  {
    assert text[i..i + |tok| - 1] == tok[..|tok| - 1];
  }

  /** The default text is laid out as DefaultLayout says. */
  lemma DefaultTextLayout()
    ensures DefaultLayout(DefaultText)
  {
    DefaultBrackets();
    DefaultImages();
    DefaultTexts();
  }

  /** A non-empty token whose characters all lie above ')' and are not square brackets. */
  lemma PlainToken(tok: string)
    requires |tok| > 0 && forall k :: 0 <= k < |tok| ==> ')' < tok[k] && tok[k] != '[' && tok[k] != ']'
    ensures WellFormed(SingleMime(tok))
  {
  }

  /** The last two children of the first group. */
  lemma ImagesTail(text: string, prior: char)
    requires '\0' !in text && ImagesLayout(text)
    ensures ParseChildren(ParseState(text, 12, prior)) == (DefaultPref.subprefs[0].subprefs[1..], 30)
  {
    PlainToken("image/jpeg");
    PlainToken("image/*");
    assert text[23] == text[23..30][0];
    TokenThenSpace(text, prior, 12, "image/jpeg");
    TokenThenCloser(text, prior, 23, "image/*");
    PrefStopsAtCloser(ParseState(text, 30, prior));
    var c := [SingleMime(" image/")];
    ChildrenCons(ParseState(text, 23, prior), SingleMime(" image/"), 30, [], 30);
    assert c + [] == c;
    ChildrenCons(ParseState(text, 12, prior), SingleMime("image/jpeg"), 23, c, 30);
    assert [SingleMime("image/jpeg")] + c == DefaultPref.subprefs[0].subprefs[1..];
  }

  /** The three children of the first group. */
  lemma ImagesGroup(text: string, prior: char)
    requires '\0' !in text && ImagesLayout(text)
    ensures ParseChildren(ParseState(text, 2, prior)) == (DefaultPref.subprefs[0].subprefs, 30)
  {
    var images := DefaultPref.subprefs[0].subprefs;
    PlainToken("image/png");
    assert text[12] == text[12..22][0];
    TokenThenSpace(text, prior, 2, "image/png");
    ImagesTail(text, prior);
    ChildrenCons(ParseState(text, 2, prior), SingleMime("image/png"), 12, images[1..], 30);
    assert [images[0]] + images[1..] == images;
  }

  /** The last two children of the second group. */
  lemma TextsTail(text: string, prior: char)
    requires '\0' !in text && TextsLayout(text)
    ensures ParseChildren(ParseState(text, 68, prior)) == ([SingleMime("TEXT"), SingleMime(" text/plai")], 83)
  {
    PlainToken("TEXT");
    PlainToken("text/plain");
    assert text[73] == text[73..83][0];
    TokenThenSpace(text, prior, 68, "TEXT");
    TokenThenCloser(text, prior, 73, "text/plain");
    PrefStopsAtCloser(ParseState(text, 83, prior));
    var d := [SingleMime(" text/plai")];
    ChildrenCons(ParseState(text, 73, prior), SingleMime(" text/plai"), 83, [], 83);
    assert d + [] == d;
    ChildrenCons(ParseState(text, 68, prior), SingleMime("TEXT"), 73, d, 83);
    assert [SingleMime("TEXT")] + d == [SingleMime("TEXT"), SingleMime(" text/plai")];
  }

  /** The last three children of the second group. */
  lemma TextsMiddle(text: string, prior: char)
    requires '\0' !in text && TextsLayout(text)
    ensures ParseChildren(ParseState(text, 44, prior)) == (DefaultPref.subprefs[1].subprefs[1..], 83)
  {
    PlainToken("text/plain;charset=utf8");
    assert text[68] == text[68..72][0];
    TokenThenSpace(text, prior, 44, "text/plain;charset=utf8");
    var cd := [SingleMime("TEXT"), SingleMime(" text/plai")];
    TextsTail(text, prior);
    ChildrenCons(ParseState(text, 44, prior), SingleMime("text/plain;charset=utf8"), 68, cd, 83);
    assert [SingleMime("text/plain;charset=utf8")] + cd == DefaultPref.subprefs[1].subprefs[1..];
  }

  /** The four children of the second group. */
  lemma TextsGroup(text: string, prior: char)
    requires '\0' !in text && TextsLayout(text)
    ensures ParseChildren(ParseState(text, 32, prior)) == (DefaultPref.subprefs[1].subprefs, 83)
  {
    var texts := DefaultPref.subprefs[1].subprefs;
    PlainToken("UTF8_STRING");
    assert text[44] == text[44..67][0];
    TokenThenSpace(text, prior, 32, "UTF8_STRING");
    TextsMiddle(text, prior);
    ChildrenCons(ParseState(text, 32, prior), SingleMime("UTF8_STRING"), 44, texts[1..], 83);
    assert [texts[0]] + texts[1..] == texts;
  }

  /** A text laid out as the default one parses to DefaultPref. */
  lemma LayoutParses(text: string, prior: char)
    requires DefaultLayout(text)
    ensures ParseText(text, prior) == Some(DefaultPref)
  {
    var images, texts := DefaultPref.subprefs[0].subprefs, DefaultPref.subprefs[1].subprefs;
    assert text[2] == text[2..11][0] && text[32] == text[32..43][0];
    WhitespaceEndIs(text, 0, 0);
    WhitespaceEndIs(text, 2, 2);
    WhitespaceEndIs(text, 31, 31);
    WhitespaceEndIs(text, 32, 32);
    WhitespaceEndIs(text, 85, 85);
    // the first group
    var g1 := ParseState(text, 1, prior);
    ImagesGroup(text, prior);
    ParenClosed(g1, '(', ')', images, 30);
    assert ParseParen(g1, '[', ']') == (None, 1);
    assert ParsePref(g1) == (Some(StoreFirstMatching(images)), 31);
    // the second group
    var g2 := ParseState(text, 31, prior);
    TextsGroup(text, prior);
    ParenClosed(g2, '(', ')', texts, 83);
    assert ParseParen(g2, '[', ']') == (None, 31);
    assert ParsePref(g2) == (Some(StoreFirstMatching(texts)), 84);
    // the outer brackets
    WhitespaceEndIs(text, 1, 1);
    WhitespaceEndIs(text, 84, 84);
    PrefStopsAtCloser(ParseState(text, 84, prior));
    var second := [StoreFirstMatching(texts)];
    ChildrenCons(g2, StoreFirstMatching(texts), 84, [], 84);
    assert second + [] == second;
    ChildrenCons(g1, StoreFirstMatching(images), 31, second, 84);
    assert [StoreFirstMatching(images)] + second == DefaultPref.subprefs;
    ParenClosed(ParseState(text, 0, prior), '[', ']', DefaultPref.subprefs, 84);
  }

  /** The default text parses, whatever byte precedes it, and gives DefaultPref. */
  lemma DefaultParses(prior: char)
    ensures '\0' !in DefaultText && ParseText(DefaultText, prior) == Some(DefaultPref)
  {
    DefaultTextLayout();
    LayoutParses(DefaultText, prior);
  }

  /**
   * get_config. A file that opens is read in chunks, NUL-terminated and
   * parsed; a parse failure is EXIT_FAILURE. A file that does not open falls
   * back to the default text, whose parse is asserted to succeed.
   */
  method GetConfig(env: Env, file: Option<string>, prior: char) returns (r: Result<MimePref>)
    requires file.Some? ==> |file.value| <= ChunkSize
    ensures ConfigPath(env).Failure? ==> r == Failure(ExitFailure)
    ensures ConfigPath(env).Success? && file.None? ==> r == Success(DefaultPref)
    ensures ConfigPath(env).Success? && file.Some? ==>
              r == match ParseText(CString(file.value), prior)
                   case Some(pref) => Success(pref)
                   case None => Failure(ExitFailure)
  {
    var path := ConfigPath(env);
    if path.Failure? {
      return Failure(ExitFailure);
    }
    if file.Some? {
      var head, len, cap := ReadChunks(file.value);
      // the bytes read are NUL-terminated before parsing
      var pref := ParseMimePrefs(CString(head[..len]), prior);
      assert head[..len] == file.value;
      if pref.Some? {
        r := Success(pref.value);
      } else {
        r := Failure(ExitFailure);
      }
    } else {
      DefaultParses(prior);
      var pref := ParseMimePrefs(DefaultText, prior);
      r := Success(pref.value);
    }
  }
}
