/**
 * The daemon of main.c: the mime precedence list it loads at start-up, the
 * score it gives each offered mime type, the per-device list of offered
 * types and the choice `device_selection` makes before it records an entry.
 *
 * Regular expressions are not modelled: `compiles` says whether PCRE2
 * accepts a pattern, and `matches(regex, mime)` whether a pattern matches.
 */
module Daemon {
  import opened Wrappers
  import opened LibC
  import ZzzList
  import opened ClipStore
  import opened Registry

  /** INT_MAX of a 32-bit int: the score of a mime type nothing ranks. */
  const IntMax := 2147483647

  /** The precedence list: a pattern per line, None for the `UNKNOWN` marker (a NULL value). */
  type Precedence = seq<Option<string>>

  // ---------------------------------------------------------------------
  // mime_regexes

  /** `$XDG_CONFIG_HOME/zzz_mimes`, else `$HOME/.config/zzz_mimes`; with neither, exit status 2. */
  function MimesPath(env: Env): (r: Result<string>)
    ensures r.Failure? <==> "XDG_CONFIG_HOME" !in env && "HOME" !in env
    ensures r.Failure? ==> r.status == 2
    ensures "XDG_CONFIG_HOME" in env ==> r.value == env["XDG_CONFIG_HOME"] + "/zzz_mimes"
    ensures "XDG_CONFIG_HOME" !in env && "HOME" in env ==> r.value == env["HOME"] + "/.config/zzz_mimes"
  {
    match GetEnv(env, "XDG_CONFIG_HOME")
    case Some(dir) => Success(dir + "/zzz_mimes")
    case None =>
      match GetEnv(env, "HOME")
      case Some(home) => Success(home + "/.config" + "/zzz_mimes")
      case None => Failure(2)
  }

  /** The end of the line starting at `i`: its newline, or the end of the text. */
  function LineEnd(s: string, i: nat): (j: nat)
    requires i <= |s|
    ensures i <= j <= |s| && (j == |s| || s[j] == '\n')
    ensures forall k :: i <= k < j ==> s[k] != '\n'
    decreases |s| - i
  {
    if i < |s| && s[i] != '\n' then LineEnd(s, i + 1) else i
  }

  /** The lines mime_regexes reads: every line up to the first empty one or the end of the file. */
  function Lines(s: string): seq<string>
    decreases |s|
  {
    var e := LineEnd(s, 0);
    if e == 0 then [] else [s[..e]] + (if e < |s| then Lines(s[e + 1..]) else [])
  }

  /** Lines written out, each ended by a newline. */
  function Joined(lines: seq<string>): string
    decreases |lines|
  {
    if lines == [] then [] else lines[0] + "\n" + Joined(lines[1..])
  }

  /** A run without newlines that ends at a newline or at the end is the whole line. */
  lemma LineEndIs(s: string, i: nat, j: nat)
    requires i <= j <= |s|
    requires forall k :: i <= k < j ==> s[k] != '\n'
    requires j == |s| || s[j] == '\n'
    ensures LineEnd(s, i) == j
  {
  }

  /** A non-empty sequence is its first element followed by the rest. */
  lemma HeadTail<T>(s: seq<T>)
    requires s != []
    ensures [s[0]] + s[1..] == s
  {
  }

  /** Concatenation is associative. */
  lemma Assoc<T>(a: seq<T>, b: seq<T>, c: seq<T>)
    ensures (a + b) + c == a + (b + c)
  {
  }

  /**
   * Non-empty lines without newlines, written out one per line, read back as
   * themselves in file order, whatever follows an empty line.
   */
  lemma {:induction false} LinesJoined(lines: seq<string>, rest: string)
    requires forall k :: 0 <= k < |lines| ==> lines[k] != [] && '\n' !in lines[k]
    requires rest == [] || rest[0] == '\n'
    ensures Lines(Joined(lines) + rest) == lines
    decreases |lines|
  {
    var s := Joined(lines) + rest;
    if lines == [] {
      assert s == rest;
      LineEndIs(s, 0, 0);
    } else {
      var first, tail := lines[0], lines[1..];
      var t := Joined(tail) + rest;
      Assoc(first + "\n", Joined(tail), rest);
      assert s == first + "\n" + t;
      forall k | 0 <= k < |first|
        ensures s[k] != '\n'
      {
        assert s[k] == first[k];
      }
      assert s[|first|] == '\n';
      LineEndIs(s, 0, |first|);
      assert s[..|first|] == first;
      assert s[|first| + 1..] == t;
      LinesJoined(tail, rest);
      HeadTail(lines);
    }
  }

  /**
   * The list that prepending each of `arrivals` in turn leaves, as
   * zzz_list_prepend builds it: the latest arrival first.
   */
  function Announced<T>(arrivals: seq<T>): seq<T>
    decreases |arrivals|
  {
    if arrivals == [] then [] else [arrivals[|arrivals| - 1]] + Announced(arrivals[..|arrivals| - 1])
  }

  /** Reversing the announced list gives the values in the order they arrived. */
  lemma {:induction false} ArrivalOrder<T>(arrivals: seq<T>)
    ensures ZzzList.Reversed(Announced(arrivals)) == arrivals
    decreases |arrivals|
  {
    if arrivals != [] {
      var n := |arrivals|;
      ZzzList.ReversedPrepend(arrivals[n - 1], Announced(arrivals[..n - 1]));
      ArrivalOrder(arrivals[..n - 1]);
      assert arrivals[..n - 1] + [arrivals[n - 1]] == arrivals;
    }
  }

  /** The list value for one line: the `UNKNOWN` marker, or the pattern. */
  function EntryOf(line: string): Option<string>
  {
    if line == "UNKNOWN" then None else Some(line)
  }

  /** The list value for each line, in order. */
  function EntriesOf(lines: seq<string>): (entries: Precedence)
    ensures |entries| == |lines|
    decreases |lines|
  {
    if lines == [] then [] else EntriesOf(lines[..|lines| - 1]) + [EntryOf(lines[|lines| - 1])]
  }

  /** Entry `k` is the value of line `k`. */
  lemma {:induction false} EntriesAt(lines: seq<string>, k: nat)
    requires k < |lines|
    ensures EntriesOf(lines)[k] == EntryOf(lines[k])
    decreases |lines|
  {
    if k < |lines| - 1 {
      EntriesAt(lines[..|lines| - 1], k);
    }
  }

  /** A line that fails the load: a pattern, not the `UNKNOWN` marker, that does not compile. */
  predicate Rejected(line: string, compiles: string -> bool)
  {
    line != "UNKNOWN" && !compiles(line)
  }

  /** No line is rejected. */
  predicate AllCompile(lines: seq<string>, compiles: string -> bool)
    decreases |lines|
  {
    lines == [] || (AllCompile(lines[..|lines| - 1], compiles) && !Rejected(lines[|lines| - 1], compiles))
  }

  /** AllCompile holds exactly when no line is a pattern that fails to compile. */
  lemma {:induction false} AllCompileAt(lines: seq<string>, compiles: string -> bool)
    ensures AllCompile(lines, compiles) <==> forall k :: 0 <= k < |lines| ==> !Rejected(lines[k], compiles)
    decreases |lines|
  {
    if lines != [] {
      var init := lines[..|lines| - 1];
      AllCompileAt(init, compiles);
      assert forall k :: 0 <= k < |init| ==> init[k] == lines[k];
    }
  }

  /** The precedence list a file yields: exit status 3 unless every pattern compiles. */
  function PrecedenceOf(content: string, compiles: string -> bool): Result<Precedence>
  {
    var lines := Lines(content);
    if AllCompile(lines, compiles) then Success(EntriesOf(lines)) else Failure(3)
  }

  /**
   * Loading fails, with status 3, exactly when one of the lines read is a
   * pattern that does not compile; otherwise entry `k` comes from line `k`.
   */
  lemma PrecedenceOfMeaning(content: string, compiles: string -> bool)
    ensures PrecedenceOf(content, compiles).Failure? <==>
              exists k :: 0 <= k < |Lines(content)| && Rejected(Lines(content)[k], compiles)
    ensures PrecedenceOf(content, compiles).Failure? ==> PrecedenceOf(content, compiles).status == 3
    ensures PrecedenceOf(content, compiles).Success? ==>
              var prec := PrecedenceOf(content, compiles).value;
              |prec| == |Lines(content)| && forall k :: 0 <= k < |prec| ==> prec[k] == EntryOf(Lines(content)[k])
  {
    var lines := Lines(content);
    AllCompileAt(lines, compiles);
    if !AllCompile(lines, compiles) {
      assert exists k :: 0 <= k < |lines| && Rejected(lines[k], compiles);
    }
    forall k | 0 <= k < |lines|
      ensures EntriesOf(lines)[k] == EntryOf(lines[k])
    {
      EntriesAt(lines, k);
    }
  }

  /** The precedence list of the lines `lines`, file order, when every pattern compiles. */
  lemma PrecedenceOfLines(lines: seq<string>, rest: string, compiles: string -> bool)
    requires forall k :: 0 <= k < |lines| ==> lines[k] != [] && '\n' !in lines[k]
    requires forall k :: 0 <= k < |lines| ==> !Rejected(lines[k], compiles)
    requires rest == [] || rest[0] == '\n'
    ensures PrecedenceOf(Joined(lines) + rest, compiles).Success?
    ensures var prec := PrecedenceOf(Joined(lines) + rest, compiles).value;
      |prec| == |lines| &&
      forall k :: 0 <= k < |lines| ==> (prec[k].None? <==> lines[k] == "UNKNOWN") && (prec[k].Some? ==> prec[k].value == lines[k])
  {
    LinesJoined(lines, rest);
    PrecedenceOfMeaning(Joined(lines) + rest, compiles);
  }

  /** Prepending a line's value to the list built so far announces one more value. */
  lemma EntriesStep(done: seq<string>, line: string, codes: Precedence)
    requires codes == Announced(EntriesOf(done))
    ensures [EntryOf(line)] + codes == Announced(EntriesOf(done + [line]))
  {
    assert (done + [line])[..|done|] == done;
    var entries := EntriesOf(done + [line]);
    assert entries[..|entries| - 1] == EntriesOf(done);
  }

  /**
   * What mime_regexes returns when its loop resumes at the text `rest` with
   * the list `codes` built so far: the next line ends the list when empty,
   * fails the load when it is a pattern that does not compile, and is
   * prepended otherwise; the list is reversed at the end of the lines.
   */
  function LoadFrom(rest: string, codes: Precedence, compiles: string -> bool): Result<Precedence>
    decreases |rest|
  {
    var e := LineEnd(rest, 0);
    var line := rest[..e];
    if e == 0 then Success(ZzzList.Reversed(codes))
    else if Rejected(line, compiles) then Failure(3)
    else if e < |rest| then LoadFrom(rest[e + 1..], [EntryOf(line)] + codes, compiles)
    else Success(ZzzList.Reversed([EntryOf(line)] + codes))
  }

  /** The outcome of the lines `lines` read after those in `done`. */
  function Outcome(done: seq<string>, lines: seq<string>, compiles: string -> bool): Result<Precedence>
  {
    if AllCompile(done + lines, compiles) then Success(EntriesOf(done + lines)) else Failure(3)
  }

  /** The last line read was a pattern that does not compile. */
  lemma OutcomeFails(done: seq<string>, line: string, more: seq<string>, compiles: string -> bool)
    requires Rejected(line, compiles)
    ensures Outcome(done, [line] + more, compiles) == Failure(3)
  {
    assert (done + ([line] + more))[|done|] == line;
    AllCompileAt(done + ([line] + more), compiles);
  }

  /** The last line read was the marker or a compiling pattern: it joins those read before. */
  lemma OutcomeShift(done: seq<string>, line: string, more: seq<string>, compiles: string -> bool)
    requires AllCompile(done, compiles) && !Rejected(line, compiles)
    ensures AllCompile(done + [line], compiles)
    ensures Outcome(done, [line] + more, compiles) == Outcome(done + [line], more, compiles)
  {
    assert (done + [line])[..|done|] == done;
    Assoc(done, [line], more);
  }

  /** Resuming at `rest` yields the outcome of the lines of `rest`, after those read. */
  lemma {:induction false} LoadFromMeaning(rest: string, done: seq<string>, codes: Precedence, compiles: string -> bool)
    requires codes == Announced(EntriesOf(done)) && AllCompile(done, compiles)
    ensures LoadFrom(rest, codes, compiles) == Outcome(done, Lines(rest), compiles)
    decreases |rest|
  {
    var e := LineEnd(rest, 0);
    var line := rest[..e];
    if e == 0 {
      assert done + Lines(rest) == done;
      ArrivalOrder(EntriesOf(done));
    } else {
      var more := if e < |rest| then Lines(rest[e + 1..]) else [];
      assert Lines(rest) == [line] + more;
      if Rejected(line, compiles) {
        OutcomeFails(done, line, more, compiles);
      } else {
        OutcomeShift(done, line, more, compiles);
        EntriesStep(done, line, codes);
        if e < |rest| {
          LoadFromMeaning(rest[e + 1..], done + [line], [EntryOf(line)] + codes, compiles);
        } else {
          assert done + [line] + [] == done + [line];
          ArrivalOrder(EntriesOf(done + [line]));
        }
      }
    }
  }

  /** Loading from the start of the file yields the precedence list of its lines. */
  lemma LoadMeaning(content: string, compiles: string -> bool)
    ensures LoadFrom(content, [], compiles) == PrecedenceOf(content, compiles)
  {
    LoadFromMeaning(content, [], [], compiles);
    assert [] + Lines(content) == Lines(content);
  }

  /**
   * One line of mime_regexes' loop: characters are appended from `start` up
   * to a newline or the end of the file; `pos` is where the loop stopped.
   */
  method ReadLine(content: string, start: nat) returns (line: string, pos: nat)
    requires start <= |content|
    ensures pos == start + LineEnd(content[start..], 0) && line == content[start..pos]
  {
    line, pos := [], start;
    while pos < |content| && content[pos] != '\n'
      invariant start <= pos <= |content| && line == content[start..pos]
      invariant forall k :: start <= k < pos ==> content[k] != '\n'
      decreases |content| - pos
    {
      assert content[start..pos + 1] == line + [content[pos]];
      line := line + [content[pos]];
      pos := pos + 1;
    }
    LineEndIs(content[start..], 0, pos - start);
  }

  /** LoadFrom from `start`, given the line that starts there and ends at `pos`. */
  lemma LoadFromLine(content: string, start: nat, pos: nat, line: string, codes: Precedence, compiles: string -> bool)
    requires start <= |content| && pos == start + LineEnd(content[start..], 0) && line == content[start..pos]
    ensures LoadFrom(content[start..], codes, compiles) ==
              if line == [] then Success(ZzzList.Reversed(codes))
              else if Rejected(line, compiles) then Failure(3)
              else if pos < |content| then LoadFrom(content[pos + 1..], [EntryOf(line)] + codes, compiles)
              else Success(ZzzList.Reversed([EntryOf(line)] + codes))
  {
    var rest := content[start..];
    assert rest[..pos - start] == line;
    if pos < |content| {
      assert rest[pos - start + 1..] == content[pos + 1..];
    }
  }

  /**
   * mime_regexes' loop over the file: a character at a time up to a newline
   * or the end of the file, stopping at an empty line; each line is
   * prepended to the list and the list is reversed at the end.
   */
  method LoadPrecedence(content: string, compiles: string -> bool) returns (r: Result<Precedence>)
    ensures r == PrecedenceOf(content, compiles)
  {
    var codes: Precedence := [];
    var pos := 0;
    var eof := false;
    while !eof
      invariant pos <= |content|
      invariant LoadFrom(content, [], compiles) ==
                if eof then Success(ZzzList.Reversed(codes)) else LoadFrom(content[pos..], codes, compiles)
      decreases |content| - pos + (if eof then 0 else 1)
    {
      var start := pos;
      var line;
      line, pos := ReadLine(content, start);
      LoadFromLine(content, start, pos, line, codes, compiles);
      // the newline, or the end of the file, has been read too
      if pos == |content| {
        eof := true;
      } else {
        pos := pos + 1;
      }
      if line == [] {
        break;
      }
      if line == "UNKNOWN" {
        codes := [None] + codes;
      } else if !compiles(line) {
        LoadMeaning(content, compiles);
        return Failure(3);
      } else {
        codes := [Some(line)] + codes;
      }
    }
    LoadMeaning(content, compiles);
    r := Success(ZzzList.Reversed(codes));
  }

  /**
   * mime_regexes: the file's path from the environment, exit status 2 when
   * it cannot be opened (`file` is None), then the list its lines give.
   */
  method MimeRegexes(env: Env, file: Option<string>, compiles: string -> bool) returns (r: Result<Precedence>)
    ensures MimesPath(env).Failure? || file.None? ==> r == Failure(2)
    ensures MimesPath(env).Success? && file.Some? ==> r == PrecedenceOf(file.value, compiles)
  {
    var path := MimesPath(env);
    if path.Failure? || file.None? {
      return Failure(2);
    }
    r := LoadPrecedence(file.value, compiles);
  }

  // ---------------------------------------------------------------------
  // mime_score

  /** The first entry whose pattern matches `mime`. */
  function FirstMatch(prec: Precedence, matches: (string, string) -> bool, mime: string): (r: Option<nat>)
    ensures r.Some? ==> r.value < |prec| && prec[r.value].Some? && matches(prec[r.value].value, mime)
    ensures r.Some? ==> forall j :: 0 <= j < r.value && prec[j].Some? ==> !matches(prec[j].value, mime)
    ensures r.None? ==> forall j :: 0 <= j < |prec| && prec[j].Some? ==> !matches(prec[j].value, mime)
    decreases |prec|
  {
    if prec == [] then None
    else if prec[0].Some? && matches(prec[0].value, mime) then Some(0)
    else
      match FirstMatch(prec[1..], matches, mime)
      case None => None
      case Some(k) => Some(k + 1)
  }

  /** The last `UNKNOWN` marker. */
  function LastUnknown(prec: Precedence): (r: Option<nat>)
    ensures r.Some? ==> r.value < |prec| && prec[r.value].None?
    ensures r.Some? ==> forall j :: r.value < j < |prec| ==> prec[j].Some?
    ensures r.None? ==> forall j :: 0 <= j < |prec| ==> prec[j].Some?
    decreases |prec|
  {
    if prec == [] then None
    else if prec[|prec| - 1].None? then Some(|prec| - 1)
    else LastUnknown(prec[..|prec| - 1])
  }

  /**
   * A mime type's rank: the first entry that matches it, else the last
   * `UNKNOWN` marker, else INT_MAX. Lower is preferred.
   */
  function Score(prec: Precedence, matches: (string, string) -> bool, mime: string): (r: int)
    ensures (exists j :: 0 <= j < |prec| && prec[j].Some? && matches(prec[j].value, mime)) ==>
              && 0 <= r < |prec| && prec[r].Some? && matches(prec[r].value, mime)
              && forall j :: 0 <= j < r && prec[j].Some? ==> !matches(prec[j].value, mime)
    ensures (forall j :: 0 <= j < |prec| && prec[j].Some? ==> !matches(prec[j].value, mime))
            && (exists j :: 0 <= j < |prec| && prec[j].None?) ==>
              && 0 <= r < |prec| && prec[r].None?
              && forall j :: r < j < |prec| ==> prec[j].Some?
    ensures (forall j :: 0 <= j < |prec| ==> prec[j].Some? && !matches(prec[j].value, mime)) ==> r == IntMax
  {
    match FirstMatch(prec, matches, mime)
    case Some(k) => k
    case None =>
      match LastUnknown(prec)
      case Some(k) => k
      case None => IntMax
  }

  /** mime_score: one pass over the list, stopping at the first match, remembering the latest marker. */
  method MimeScore(prec: Precedence, matches: (string, string) -> bool, mime: string) returns (score: int)
    ensures score == Score(prec, matches, mime)
  {
    var i := 0;
    var mimeI := -1;
    var unknownI := IntMax;
    while i < |prec|
      invariant 0 <= i <= |prec| && mimeI == -1
      invariant forall j :: 0 <= j < i && prec[j].Some? ==> !matches(prec[j].value, mime)
      invariant unknownI == match LastUnknown(prec[..i]) case Some(k) => k case None => IntMax
      decreases |prec| - i
    {
      assert prec[..i + 1][..i] == prec[..i];
      if prec[i].None? {
        unknownI := i;
        i := i + 1;
        continue;
      }
      if mimeI < 0 {
        if matches(prec[i].value, mime) {
          mimeI := i;
          break;
        }
      }
      i := i + 1;
    }
    if mimeI < 0 {
      assert prec[..|prec|] == prec;
    }
    score := if mimeI < 0 then unknownI else mimeI;
  }

  // ---------------------------------------------------------------------
  // The per-device state and device_selection

  /** The score of each mime type of a list, in list order. */
  function Ranks(mimes: seq<string>, prec: Precedence, matches: (string, string) -> bool): (ranks: seq<int>)
    ensures |ranks| == |mimes|
    decreases |mimes|
  {
    if mimes == [] then []
    else Ranks(mimes[..|mimes| - 1], prec, matches) + [Score(prec, matches, mimes[|mimes| - 1])]
  }

  /** Each rank is the score of the mime type at the same place. */
  lemma {:induction false} RankAt(mimes: seq<string>, prec: Precedence, matches: (string, string) -> bool, k: nat)
    requires k < |mimes|
    ensures Ranks(mimes, prec, matches)[k] == Score(prec, matches, mimes[k])
    decreases |mimes|
  {
    if k < |mimes| - 1 {
      RankAt(mimes[..|mimes| - 1], prec, matches, k);
    }
  }

  /** The ranks are the scores of the mime types, place by place. */
  lemma RanksScores(mimes: seq<string>, prec: Precedence, matches: (string, string) -> bool)
    ensures forall k :: 0 <= k < |mimes| ==> Ranks(mimes, prec, matches)[k] == Score(prec, matches, mimes[k])
  {
    forall k | 0 <= k < |mimes|
      ensures Ranks(mimes, prec, matches)[k] == Score(prec, matches, mimes[k])
    {
      RankAt(mimes, prec, matches, k);
    }
  }

  /** Rank `k` is below INT_MAX, strictly below every earlier rank and no higher than any later one. */
  predicate EarliestLowest(ranks: seq<int>, k: int)
  {
    && 0 <= k < |ranks|
    && ranks[k] < IntMax
    && (forall j :: 0 <= j < k ==> ranks[j] > ranks[k])
    && (forall j :: k < j < |ranks| ==> ranks[j] >= ranks[k])
  }

  /**
   * The choice device_selection makes over `ranks` from place `i` on, `best`
   * being the place chosen so far (None while nothing ranked below INT_MAX):
   * a rank strictly lower than the best so far takes its place.
   */
  function ChoiceFrom(ranks: seq<int>, i: nat, best: Option<nat>): (r: Option<nat>)
    requires i <= |ranks| && (best.Some? ==> best.value < i)
    ensures r.Some? ==> r.value < |ranks|
    decreases |ranks| - i
  {
    if i == |ranks| then best
    else
      var bestRank := if best.None? then IntMax else ranks[best.value];
      ChoiceFrom(ranks, i + 1, if ranks[i] < bestRank then Some(i) else best)
  }

  /** One step of ChoiceFrom. */
  lemma ChoiceStep(ranks: seq<int>, i: nat, best: Option<nat>)
    requires i < |ranks| && (best.Some? ==> best.value < i)
    ensures var bestRank := if best.None? then IntMax else ranks[best.value];
      ChoiceFrom(ranks, i, best) == ChoiceFrom(ranks, i + 1, if ranks[i] < bestRank then Some(i) else best)
  {
  }

  /** The place device_selection chooses, if any. */
  function Choice(ranks: seq<int>): (r: Option<nat>)
    ensures r.Some? ==> r.value < |ranks|
  {
    ChoiceFrom(ranks, 0, None)
  }

  /** What the best place so far means for the first `i` ranks. */
  predicate BestOfPrefix(ranks: seq<int>, i: nat, best: Option<nat>)
    requires i <= |ranks|
  {
    && (best.None? <==> forall k :: 0 <= k < i ==> ranks[k] >= IntMax)
    && (best.Some? ==>
          && best.value < i && ranks[best.value] < IntMax
          && (forall j :: 0 <= j < best.value ==> ranks[j] > ranks[best.value])
          && (forall j :: best.value < j < i ==> ranks[j] >= ranks[best.value]))
  }

  lemma {:induction false} ChoiceFromBest(ranks: seq<int>, i: nat, best: Option<nat>)
    requires i <= |ranks| && BestOfPrefix(ranks, i, best)
    ensures BestOfPrefix(ranks, |ranks|, ChoiceFrom(ranks, i, best))
    decreases |ranks| - i
  {
    if i < |ranks| {
      var bestRank := if best.None? then IntMax else ranks[best.value];
      ChoiceFromBest(ranks, i + 1, if ranks[i] < bestRank then Some(i) else best);
    }
  }

  /**
   * Nothing is chosen exactly when every rank is INT_MAX or more; otherwise
   * the choice is the earliest of the lowest ranks.
   */
  lemma ChoiceMeaning(ranks: seq<int>)
    ensures Choice(ranks).None? <==> forall k :: 0 <= k < |ranks| ==> ranks[k] >= IntMax
    ensures Choice(ranks).Some? ==> EarliestLowest(ranks, Choice(ranks).value)
  {
    ChoiceFromBest(ranks, 0, None);
  }

  /**
   * device_selection's choice loop: walks the list, keeping the first mime
   * type whose score is strictly lower than the best so far, starting from
   * INT_MAX.
   */
  method ChooseMime(list: ZzzList.List<string>, prec: Precedence, matches: (string, string) -> bool)
    returns (chosen: Option<string>)
    requires list.Valid()
    ensures var choice := Choice(Ranks(list.Contents, prec, matches));
      chosen == if choice.None? then None else Some(list.Contents[choice.value])
  {
    var node := list.head;
    var chosenScore := IntMax;
    chosen := None;
    ghost var i := 0;
    ghost var best: Option<nat> := None;
    ghost var mimes := list.Contents;
    ghost var ranks := Ranks(mimes, prec, matches);
    while node != null
      invariant 0 <= i <= |list.Nodes|
      invariant node == (if i < |list.Nodes| then list.Nodes[i] else null)
      invariant best.Some? ==> best.value < i
      invariant Choice(ranks) == ChoiceFrom(ranks, i, best)
      invariant chosen == (if best.None? then None else Some(mimes[best.value]))
      invariant chosenScore == if best.None? then IntMax else ranks[best.value]
      decreases |list.Nodes| - i
    {
      assert node.value == mimes[i] && node.next == ZzzList.Follower(list.Nodes, i);
      var score := MimeScore(prec, matches, node.value);
      RankAt(mimes, prec, matches, i);
      ChoiceStep(ranks, i, best);
      if score < chosenScore {
        chosenScore := score;
        chosen := Some(node.value);
        best := Some(i);
      }
      node := node.next;
      i := i + 1;
    }
  }

  /** What device_selection does. */
  datatype Selection =
    | NothingChosen                              // no offered type scored below INT_MAX
    | Recorded(target: ClipTarget, mime: string) // an entry was opened and `mime` '\n' written to it
    | Restored(target: ClipTarget, mime: string) // replace mode: the latest entry is offered as `mime`
    | Idle                                       // cleared selection, not replacing or no entry
    | Stopped(status: int)                       // replace mode: clip_fd exited the process

  /**
   * The offer branch of device_selection, once the list is in offer order:
   * the chosen type, if any, gets a new entry.
   */
  method RecordChoice(list: ZzzList.List<string>, history: ClipHistory, env: Env, listing: seq<string>,
                      prec: Precedence, matches: (string, string) -> bool)
    returns (outcome: Selection)
    requires list.Valid() && history.Valid() && history !in list.Repr
    modifies history
    ensures history.Valid()
    ensures var choice := Choice(Ranks(list.Contents, prec, matches));
              && (outcome == NothingChosen <==> choice.None?)
              && (choice.Some? ==>
                    && outcome.Recorded? && outcome.mime == list.Contents[choice.value]
                    && (outcome.target.Exit? || (outcome.target.Entry? && outcome.target.create)))
    ensures outcome.Recorded? ==>
              && (outcome.target.Exit? <==> old(history.dir).None? && StateDir(env).Failure?)
              && (outcome.target.Exit? ==> outcome.target == Exit(2))
    ensures outcome.Recorded? && outcome.target.Entry? ==>
              && history.counter == (if old(history.dir).None? then MaxEntry(listing) else old(history.counter)) + 1
              && outcome.target == Entry(history.counter, EntryPath(history.dir.value, history.counter), true)
    ensures old(history.dir).Some? ==> history.dir == old(history.dir)
    ensures outcome.Recorded? && old(history.dir).None? && StateDir(env).Success? ==>
              history.dir == Some(ClipDir(StateDir(env).value))
    ensures outcome == NothingChosen ==> unchanged(history)
  {
    var chosen := ChooseMime(list, prec, matches);
    if chosen.None? {
      outcome := NothingChosen;
    } else {
      var target := history.ClipFd(true, env, listing);
      outcome := Recorded(target, chosen.value);
    }
  }

  /**
   * The replace branch of device_selection: the latest entry is offered
   * again under the mime type of its first line. `entry` is that file's
   * content, None when it does not open. With no entry yet, or a file that
   * does not open, nothing happens; with no state directory clip_fd exits
   * with status 2.
   */
  method RestoreLatest(history: ClipHistory, env: Env, listing: seq<string>, entry: Option<string>)
    returns (outcome: Selection)
    requires history.Valid() && (entry.Some? ==> |FirstLine(entry.value)| < MimeBufferSize)
    modifies history
    ensures history.Valid()
    ensures old(history.dir).Some? ==> history.dir == old(history.dir)
    ensures old(history.dir).None? && StateDir(env).Success? ==> history.dir == Some(ClipDir(StateDir(env).value))
    ensures outcome == Idle || outcome == Stopped(2)
            || (outcome.Restored? && entry.Some? && outcome.mime == FirstLine(entry.value))
    ensures outcome.Stopped? <==> old(history.dir).None? && StateDir(env).Failure?
    ensures !outcome.Stopped? ==>
              history.counter == (if old(history.dir).None? then MaxEntry(listing) else old(history.counter))
    ensures outcome.Restored? <==> history.counter != -1 && entry.Some?
    ensures outcome.Restored? ==>
              outcome.target == Entry(history.counter, EntryPath(history.dir.value, history.counter), false)
  {
    var target := history.ClipFd(false, env, listing);
    if target.Exit? {
      outcome := Stopped(2);
    } else if target.Entry? && entry.Some? {
      var mime := ReadMime(entry.value);
      outcome := Restored(target, mime);
    } else {
      outcome := Idle;
    }
  }

  /**
   * The first replay of a daemon that has just started: the history is
   * found by scanning the directory, so the entry offered is the one with
   * the largest number in `listing`, read from its file.
   */
  method ReplayAfterStart(env: Env, listing: seq<string>, entry: Option<string>) returns (outcome: Selection)
    requires entry.Some? ==> |FirstLine(entry.value)| < MimeBufferSize
    ensures StateDir(env).Failure? ==> outcome == Stopped(2)
    ensures StateDir(env).Success? && MaxEntry(listing) >= 0 && entry.Some? ==>
              var n := MaxEntry(listing);
              outcome == Restored(Entry(n, EntryPath(ClipDir(StateDir(env).value), n), false), FirstLine(entry.value))
    ensures StateDir(env).Success? && (MaxEntry(listing) == -1 || entry.None?) ==> outcome == Idle
  {
    var history := new ClipHistory();
    outcome := RestoreLatest(history, env, listing, entry);
  }

  /** The device_state of main.c: the device record and the mime types of the current offer. */
  class DeviceState {
    const info: DeviceInfo
    var mimes: ZzzList.List<string>

    ghost predicate Valid()
      reads this, mimes, mimes.Repr
    {
      mimes.Valid() && this !in mimes.Repr
    }

    /** The state registry_global sets up with the device: no mime types yet. */
    constructor (info: DeviceInfo)
      ensures Valid() && this.info == info && mimes.Contents == [] && fresh(mimes.Repr)
    {
      this.info := info;
      mimes := new ZzzList.List.Empty();
    }

    /** device_offer: a new offer starts with an empty list. */
    method DeviceOffer()
      modifies this
      ensures Valid() && mimes.Contents == [] && fresh(mimes.Repr)
    {
      mimes := new ZzzList.List.Empty();
    }

    /** offer_new_offer: each mime type the offer announces is prepended. */
    method OfferNewOffer(mime: string)
      requires Valid()
      modifies mimes
      ensures Valid() && mimes.Contents == [mime] + old(mimes.Contents)
      ensures fresh(mimes.Repr - old(mimes.Repr))
    {
      mimes.Prepend(mime);
    }

    /**
     * A data_offer event followed by one offer event per mime type in
     * `arrivals`: the list holds them latest first.
     */
    method OfferEvents(arrivals: seq<string>)
      modifies this
      ensures Valid() && mimes.Contents == Announced(arrivals) && fresh(mimes.Repr)
    {
      DeviceOffer();
      for i := 0 to |arrivals|
        invariant Valid() && mimes.Contents == Announced(arrivals[..i]) && fresh(mimes.Repr)
      {
        assert arrivals[..i + 1][..i] == arrivals[..i];
        OfferNewOffer(arrivals[i]);
      }
      assert arrivals[..|arrivals|] == arrivals;
    }

    /**
     * device_selection. With an offer: the list is reversed in place, the
     * earliest lowest-scoring type is chosen, and a new entry is opened for
     * it. Without one, in replace mode: the latest entry (whose content is
     * `entry`, None when its file does not open) is offered again under the
     * mime type of its first line.
     */
    method DeviceSelection(offer: bool, replace: bool, history: ClipHistory, env: Env, listing: seq<string>,
                           prec: Precedence, matches: (string, string) -> bool, entry: Option<string>)
      returns (outcome: Selection)
      requires Valid() && history.Valid() && history !in mimes.Repr
      requires !offer && replace && entry.Some? ==> |FirstLine(entry.value)| < MimeBufferSize
      modifies mimes.Repr, history
      ensures Valid() && history.Valid() && mimes == old(mimes)
      ensures offer ==> mimes.Contents == ZzzList.Reversed(old(mimes.Contents))
      ensures !offer ==> mimes.Contents == old(mimes.Contents)
      ensures offer ==> var choice := Choice(Ranks(mimes.Contents, prec, matches));
                && (outcome == NothingChosen <==> choice.None?)
                && (choice.Some? ==>
                      && outcome.Recorded? && outcome.mime == mimes.Contents[choice.value]
                      && (outcome.target.Exit? || (outcome.target.Entry? && outcome.target.create)))
      ensures offer && outcome.Recorded? ==>
                && (outcome.target.Exit? <==> old(history.dir).None? && StateDir(env).Failure?)
                && (outcome.target.Exit? ==> outcome.target == Exit(2))
      ensures offer && outcome.Recorded? && outcome.target.Entry? ==>
                && history.counter == (if old(history.dir).None? then MaxEntry(listing) else old(history.counter)) + 1
                && outcome.target == Entry(history.counter, EntryPath(history.dir.value, history.counter), true)
      ensures offer && outcome == NothingChosen ==> unchanged(history)
      ensures old(history.dir).Some? ==> history.dir == old(history.dir)
      ensures (offer && outcome.Recorded?) || (!offer && replace) ==>
                old(history.dir).None? && StateDir(env).Success? ==> history.dir == Some(ClipDir(StateDir(env).value))
      ensures !offer && !replace ==> outcome == Idle && unchanged(history)
      ensures !offer && replace ==>
                (outcome == Idle || outcome == Stopped(2)
                 || (outcome.Restored? && entry.Some? && outcome.mime == FirstLine(entry.value)))
      ensures !offer && replace ==> (outcome.Stopped? <==> old(history.dir).None? && StateDir(env).Failure?)
      ensures !offer && replace && !outcome.Stopped? ==>
                history.counter == (if old(history.dir).None? then MaxEntry(listing) else old(history.counter))
      ensures !offer && replace ==> (outcome.Restored? <==> history.counter != -1 && entry.Some?)
      ensures !offer && replace && outcome.Restored? ==>
                outcome.target == Entry(history.counter, EntryPath(history.dir.value, history.counter), false)
    {
      if offer {
        mimes.Reverse();
        outcome := RecordChoice(mimes, history, env, listing, prec, matches);
      } else if replace {
        outcome := RestoreLatest(history, env, listing, entry);
      } else {
        outcome := Idle;
      }
    }

    /** device_finished: the device is gone and the list is emptied. */
    method DeviceFinished()
      modifies this, info
      ensures Valid() && !info.device && mimes.Contents == [] && fresh(mimes.Repr)
      ensures info.seat == old(info.seat) && info.manager == old(info.manager)
    {
      info.device := false;
      mimes := new ZzzList.List.Empty();
    }
  }
}
