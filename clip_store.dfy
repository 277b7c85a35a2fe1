/**
 * The clipboard history on disk (main.c `clip_fd` and the record layout of
 * `device_selection`): one file per entry, named by its decimal number, in
 * `$XDG_STATE_HOME/zzz_clip/`. Each file holds the mime type, a newline,
 * then the payload.
 */
module ClipStore {
  import opened Wrappers
  import opened LibC

  /** XDG_STATE_HOME, else HOME followed by "/.local/state"; with neither, exit status 2. */
  function StateDir(env: Env): (r: Result<string>)
    ensures r.Failure? <==> "XDG_STATE_HOME" !in env && "HOME" !in env
    ensures r.Failure? ==> r.status == 2
    ensures "XDG_STATE_HOME" in env ==> r.value == env["XDG_STATE_HOME"]
    ensures "XDG_STATE_HOME" !in env && "HOME" in env ==> r.value == env["HOME"] + "/.local/state"
  {
    match GetEnv(env, "XDG_STATE_HOME")
    case Some(dir) => Success(dir)
    case None =>
      match GetEnv(env, "HOME")
      case Some(home) => Success(home + "/.local/state")
      case None => Failure(2)
  }

  /** The history directory, with its trailing slash. */
  function ClipDir(stateDir: string): string
  {
    stateDir + "/zzz_clip/"
  }

  /** The file of the entry numbered `n`. */
  function EntryPath(clipDir: string, n: nat): string
  {
    clipDir + DecimalString(n)
  }

  /** A directory entry that stands for a history entry: anything but "." and "..". */
  predicate IsEntryName(name: string)
  {
    name != "." && name != ".."
  }

  /**
   * The counter a scan of the directory leaves: the largest number strtol
   * reads from an entry name, and -1 when that is none above -1.
   */
  function MaxEntry(names: seq<string>): (m: int)
    ensures m >= -1
    ensures forall k :: 0 <= k < |names| && IsEntryName(names[k]) ==> Strtol(names[k]) <= m
    ensures m == -1 || exists k :: 0 <= k < |names| && IsEntryName(names[k]) && Strtol(names[k]) == m
    decreases |names|
  {
    if names == [] then -1
    else
      var m := MaxEntry(names[..|names| - 1]);
      var last := names[|names| - 1];
      if IsEntryName(last) && Strtol(last) > m then Strtol(last) else m
  }

  /** A name that is not a number reads as 0, so it counts as entry 0. */
  lemma WordNameCountsAsZero()
    ensures MaxEntry([".", "..", "notes"]) == 0
  {
    assert Strtol("notes") == 0;
    assert MaxEntry([".", ".."]) == -1 by {
      assert [".", ".."][..1] == ["."];
      assert ["."][..0] == [];
    }
    assert [".", "..", "notes"][..2] == [".", ".."];
  }

  /** clip_fd's scan: a running maximum over the directory listing, starting at -1. */
  method ScanMax(names: seq<string>) returns (counter: int)
    ensures counter == MaxEntry(names)
  {
    counter := -1;
    for i := 0 to |names|
      invariant counter == MaxEntry(names[..i])
    {
      assert names[..i + 1][..i] == names[..i];
      if names[i] == "." || names[i] == ".." {
        continue;
      }
      var num := Strtol(names[i]);
      if num > counter {
        counter := num;
      }
    }
    assert names[..|names|] == names;
  }

  /** A history directory holding entries 0 .. n-1 (and "." and "..") scans to n - 1. */
  lemma DenseHistory(n: nat)
    ensures MaxEntry([".", ".."] + seq(n, k requires 0 <= k => DecimalString(k))) == n - 1
  {
    var names := [".", ".."] + seq(n, k requires 0 <= k => DecimalString(k));
    forall k | 2 <= k < |names|
      ensures Strtol(names[k]) == k - 2
    {
      StrtolDecimal(k - 2);
    }
    assert names[0] == "." && names[1] == "..";
    var m := MaxEntry(names);
    if n > 0 {
      assert IsEntryName(names[n + 1]) by {
        assert names[n + 1][0] != '.';
      }
      assert m >= n - 1;
    }
    if m != -1 {
      var k :| 0 <= k < |names| && IsEntryName(names[k]) && Strtol(names[k]) == m;
      assert k != 0 && k != 1;
    }
  }

  /** Entry files of different numbers are different files. */
  lemma DistinctEntries(clipDir: string, n: nat, m: nat)
    requires n != m
    ensures EntryPath(clipDir, n) != EntryPath(clipDir, m)
  {
    DecimalInjective(n, m);
    assert EntryPath(clipDir, n)[|clipDir|..] == DecimalString(n);
    assert EntryPath(clipDir, m)[|clipDir|..] == DecimalString(m);
  }

  /** What clip_fd hands back: the process exits, there is no entry (-1), or an entry file to open. */
  datatype ClipTarget =
    | Exit(status: int)
    | NoEntry
    | Entry(number: nat, path: string, create: bool)

  /**
   * The function-static state of clip_fd: `counter` is zzz_counter, the
   * latest entry number, and `dir` is zzz_dir, NULL until the first call.
   */
  class ClipHistory {
    var counter: int
    var dir: Option<string>

    ghost predicate Valid()
      reads this
    {
      counter >= -1 && (dir.None? ==> counter == -1)
    }

    constructor ()
      ensures Valid() && dir == None
    {
      counter, dir := -1, None;
    }

    /**
     * clip_fd(create). The first call finds the directory and scans the
     * `listing` of it; an append pre-increments the counter and names the
     * file after the new value, a replay names the current entry, or gives
     * no entry when the counter is still -1. Opening the file is not modelled.
     */
    method ClipFd(create: bool, env: Env, listing: seq<string>) returns (target: ClipTarget)
      requires Valid()
      modifies this
      ensures Valid()
      ensures old(dir).None? && StateDir(env).Failure? ==> target == Exit(2) && dir == None
      ensures old(dir).None? && StateDir(env).Success? ==> dir == Some(ClipDir(StateDir(env).value))
      ensures old(dir).Some? ==> dir == old(dir)
      ensures !target.Exit? ==>
                counter == (if old(dir).None? then MaxEntry(listing) else old(counter)) + (if create then 1 else 0)
      ensures target.Exit? <==> old(dir).None? && StateDir(env).Failure?
      ensures target.Exit? ==> counter == old(counter)
      ensures target.NoEntry? <==> !target.Exit? && !create && counter == -1
      ensures target.Entry? ==> target == Entry(counter, EntryPath(dir.value, counter), create)
    {
      if dir.None? {
        var stateDir := StateDir(env);
        if stateDir.Failure? {
          return Exit(2);
        }
        dir := Some(ClipDir(stateDir.value));
        counter := ScanMax(listing);
      }
      if create {
        counter := counter + 1;
      } else if counter == -1 {
        return NoEntry;
      }
      target := Entry(counter, EntryPath(dir.value, counter), create);
    }
  }

  /**
   * Two selections recorded by one daemon process: the first append scans
   * the directory and takes the number after the largest one found, the
   * second takes the next number, so the two never share a file. When the
   * first call exits, there is no second.
   */
  method SuccessiveAppends(env: Env, listing: seq<string>) returns (first: ClipTarget, second: ClipTarget)
    ensures StateDir(env).Failure? ==> first == Exit(2) && second == first
    ensures StateDir(env).Success? ==>
              && first.Entry? && second.Entry? && first.create && second.create
              && first.number == MaxEntry(listing) + 1 && second.number == first.number + 1
              && first.path == EntryPath(ClipDir(StateDir(env).value), first.number)
              && second.path != first.path
  {
    var history := new ClipHistory();
    first := history.ClipFd(true, env, listing);
    if first.Exit? {
      return first, first;
    }
    second := history.ClipFd(true, env, listing);
    DistinctEntries(history.dir.value, first.number, second.number);
  }

  /** The bytes of a history entry: the mime type, a newline, the payload. */
  function Record(mime: string, payload: string): (r: string)
    ensures |r| == |mime| + 1 + |payload|
    ensures r[..|mime|] == mime && r[|mime|] == '\n' && r[|mime| + 1..] == payload
  {
    mime + "\n" + payload
  }

  /** The bytes before the first newline (all of them when there is none). */
  function FirstLine(entry: string): string
  {
    PrefixBefore(entry, '\n')
  }

  /** The first line of a record is its mime type, and the payload follows it. */
  lemma RecordRoundTrip(mime: string, payload: string)
    requires '\n' !in mime
    ensures FirstLine(Record(mime, payload)) == mime
    ensures Record(mime, payload)[|mime| + 1..] == payload
  {
    var r := Record(mime, payload);
    assert r[..|mime|] == mime && r[|mime|] == '\n';
    PrefixBeforeUnique(r, '\n', mime);
  }

  /** The 256-byte buffer the mime type is read into, NUL included. */
  const MimeBufferSize := 256

  /**
   * The replay read loop (main.c and zzz_get.c): one byte at a time until a
   * newline or the end of the entry; the newline is not kept.
   */
  method ReadMime(entry: string) returns (mime: string)
    requires |FirstLine(entry)| < MimeBufferSize
    ensures mime == FirstLine(entry)
  {
    mime := [];
    var pos := 0;
    while pos < |entry| && entry[pos] != '\n'
      invariant pos <= |entry| && mime == entry[..pos] && '\n' !in mime
      decreases |entry| - pos
    {
      mime := mime + [entry[pos]];
      pos := pos + 1;
    }
    PrefixBeforeUnique(entry, '\n', mime);
  }
}
