/**
 * zzz_get, the replay tool: it takes one history entry number, finds the
 * entry's file, reads its mime type from the first line and offers the
 * entry as the selection once the data-control device exists.
 *
 * The environment, the entry's content (None when the file cannot be
 * opened) and the registry's announcements are parameters; the Wayland
 * calls themselves are not modelled.
 */
module ZzzGet {
  import opened Wrappers
  import opened LibC
  import opened ClipStore
  import opened Registry

  /** The file main opens: the state directory, "/", "zzz_clip", "/", then the argument as given. */
  function ClipFilename(stateDir: string, arg: string): (path: string)
    ensures path == ClipDir(stateDir) + arg
  {
    stateDir + "/" + "zzz_clip" + "/" + arg
  }

  /** The argument that names entry `n` opens the file the daemon wrote for entry `n`. */
  lemma PathAgreement(stateDir: string, n: nat)
    ensures ClipFilename(stateDir, DecimalString(n)) == EntryPath(ClipDir(stateDir), n)
  {
    assert stateDir + "/" + "zzz_clip" + "/" == stateDir + "/zzz_clip/";
  }

  /** How main gets on before connecting to the display: it quits with a status, or it offers `mime` from `path`. */
  datatype Launch = Quit(status: int) | Offer(path: string, mime: string)

  /**
   * The start of main. `args` is argv, the program name included. Any
   * argument count but one exits with status 1; no state directory exits
   * with status 2. A file that does not open is only reported, and then
   * nothing is read from it, so the mime type is empty.
   */
  method Start(args: seq<string>, env: Env, entry: Option<string>) returns (launch: Launch)
    requires |args| == 2 && StateDir(env).Success? && entry.Some? ==> |FirstLine(entry.value)| < MimeBufferSize
    ensures |args| != 2 ==> launch == Quit(1)
    ensures |args| == 2 && StateDir(env).Failure? ==> launch == Quit(2)
    ensures |args| == 2 && StateDir(env).Success? ==>
              && launch.Offer?
              && launch.path == ClipFilename(StateDir(env).value, args[1])
              && launch.mime == if entry.None? then "" else FirstLine(entry.value)
  {
    if |args| != 2 {
      return Quit(1);
    }
    var stateDir := StateDir(env);
    if stateDir.Failure? {
      return Quit(2);
    }
    var path := ClipFilename(stateDir.value, args[1]);
    var mime := "";
    if entry.Some? {
      mime := ReadMime(entry.value);
    }
    launch := Offer(path, mime);
  }

  /**
   * main's dispatch loop over the globals the registry announces, one per
   * dispatch, each handled by registry_global. After each dispatch the data
   * source is created and set as the selection when the device exists and
   * `created` is still false. `sources` counts the sources created; `at` is
   * the dispatch after which that happened.
   */
  method DispatchLoop(globals: seq<Interface>) returns (sources: nat, ghost at: nat)
    ensures sources <= 1
    ensures sources == 1 <==> BothBound(globals)
    ensures sources == 1 ==> at < |globals| && BothBound(globals[..at + 1]) && !BothBound(globals[..at])
  {
    var info := new DeviceInfo();
    var created := false;
    sources, at := 0, 0;
    var i := 0;
    while i < |globals|
      invariant 0 <= i <= |globals|
      invariant info.seat == (Seat in globals[..i]) && info.manager == (DataControlManager in globals[..i])
      invariant info.device == BothBound(globals[..i]) && created == info.device
      invariant sources == if created then 1 else 0
      invariant created ==> at < i && BothBound(globals[..at + 1]) && !BothBound(globals[..at])
    {
      var _ := info.RegistryGlobal(globals[i]);
      assert globals[..i + 1] == globals[..i] + [globals[i]];
      if info.device && !created {
        created := true;
        sources := sources + 1;
        at := i;
      }
      i := i + 1;
    }
    assert globals[..|globals|] == globals;
  }
}
