/** `Args::parse`: the option values clap matched, normalised into the
    program's settings. The matched options, the MAC-list file system and
    the default list path are parameters; what the function prints is
    returned as a log of lines. */
module CommandLine {
  import opened Io
  import opened Text
  import opened Router

  const RouterDefaultAddr: string := "192.168.1.1:80"
  const DefaultPassword: string := "admin"

  /** The options of the clap table, by their names there. */
  datatype Opt =
    | RouterAddr      // router, -r
    | Password        // password, -p
    | LoginOnly       // login_only, -l
    | GetClientsOnly  // get_clients_only, -c
    | GetMacsOnly     // get_macs_only, -m
    | ShowStatus      // show_status, -s
    | EnableMacflt    // enable_macflt, -e
    | DisableMacflt   // disable_macflt, -d
    | AddWhiteList    // add_white_list, -w
    | AddBlackList    // add_black_list, -b
    | BlackListFile   // black_list_file, -f
    | ShowWhiteList   // show_white_list, -W
    | ShowBlackList   // show_black_list, -B
    | Logout          // logout, -o
    | Reboot          // reboot, -t
    | Verbose         // verbose, -v

  /** What clap matched: for every option given, its values (none for a
      flag). */
  datatype Matches = Matches(values: map<Opt, seq<string>>) {
    /** `value_of(name)`: the first value of the option, if given. */
    function ValueOf(name: Opt): Option<string> {
      if name in values && values[name] != [] then Some(values[name][0]) else None
    }

    /** `values_of(name)`: all values of the option, if given. */
    function ValuesOf(name: Opt): Option<seq<string>> {
      if name in values then Some(values[name]) else None
    }

    /** `is_present(name)`. */
    predicate IsPresent(name: Opt) {
      name in values
    }
  }

  /** A file of the file system: its text, or the error reading it fails
      with. */
  datatype FileEntry = Readable(text: string) | Unreadable(error: string)

  /** `Path::new(path).is_file()`; the empty path never names a file. */
  predicate IsFile(files: map<string, FileEntry>, path: string) {
    path != [] && path in files
  }

  /** The settings `Args::parse` produces. */
  datatype Args = Args(
    router: string,
    password: string,
    loginOnly: bool,
    getClientsOnly: bool,
    getMacsOnly: bool,
    showStatus: bool,
    enableMacflt: bool,
    disableMacflt: bool,
    addWhiteList: Option<seq<string>>,
    addBlackList: Option<seq<string>>,
    blackListFile: Option<seq<string>>,
    showWhiteList: bool,
    showBlackList: bool,
    logout: bool,
    reboot: bool,
    verbose: bool)

  /** The outcome of parsing: the settings, or the message the parser
      panics with. */
  datatype Parsed = Parsed(args: Args) | Panic(message: string)

  function InvalidMac(mac: string): string {
    "routerctl::Args::parse: ERR: invalid MAC: '" + mac + "'"
  }

  function CantRead(path: string, error: string): string {
    "can't read '" + path + "': " + error
  }

  function NotAMac(token: string): string {
    "routerctl: ERR: entry(" + token + ") is not a valid MAC."
  }

  function NotAFile(path: string): string {
    "routerctl: ERR: '" + path + "' is not a file."
  }

  /** The first entry that fails the MAC check, if any. */
  function FirstInvalid(ms: seq<string>): (r: Option<string>)
    ensures r.None? <==> forall k :: 0 <= k < |ms| ==> IsMac(ms[k])
    ensures r.Some? ==> exists i :: 0 <= i < |ms| && ms[i] == r.value && !IsMac(ms[i])
                          && forall j :: 0 <= j < i ==> IsMac(ms[j])
  {
    if ms == [] then None
    else if !IsMac(ms[0]) then Some(ms[0])
    else
      var r := FirstInvalid(ms[1..]);
      FirstInvalidAfterValid(ms, r);
      r
  }

  /** Behind a valid head, the first invalid entry of the tail is the first
      invalid entry of the whole list. */
  lemma FirstInvalidAfterValid(ms: seq<string>, r: Option<string>)
    requires ms != [] && IsMac(ms[0])
    requires r.None? <==> forall k :: 0 <= k < |ms| - 1 ==> IsMac(ms[1..][k])
    requires r.Some? ==> exists i :: 0 <= i < |ms| - 1 && ms[1..][i] == r.value && !IsMac(ms[1..][i])
                          && forall j :: 0 <= j < i ==> IsMac(ms[1..][j])
    ensures r.None? <==> forall k :: 0 <= k < |ms| ==> IsMac(ms[k])
    ensures r.Some? ==> exists i :: 0 <= i < |ms| && ms[i] == r.value && !IsMac(ms[i])
                          && forall j :: 0 <= j < i ==> IsMac(ms[j])
  {
    var tail := ms[1..];
    assert forall k :: 1 <= k < |ms| ==> ms[k] == tail[k - 1];
    if r.Some? {
      var i :| 0 <= i < |tail| && tail[i] == r.value && !IsMac(tail[i])
               && forall j :: 0 <= j < i ==> IsMac(tail[j]);
      assert ms[i + 1] == r.value && forall j :: 0 <= j < i + 1 ==> IsMac(ms[j]);
    }
  }

  /** The tokens that pass the MAC check, in their order. */
  function ValidMacs(ts: seq<string>): (r: seq<string>)
    ensures |r| <= |ts|
    ensures forall k :: 0 <= k < |r| ==> IsMac(r[k])
  {
    if ts == [] then []
    else
      var last := ts[|ts| - 1];
      ValidMacs(ts[..|ts| - 1]) + if IsMac(last) then [last] else []
  }

  /** The kept tokens are exactly the tokens that pass the MAC check. */
  lemma {:induction false} ValidMacsElements(ts: seq<string>)
    ensures forall x :: x in ValidMacs(ts) <==> x in ts && IsMac(x)
    decreases |ts|
  {
    if ts != [] {
      var init := ts[..|ts| - 1];
      ValidMacsElements(init);
      assert ts == init + [ts[|ts| - 1]];
    }
  }

  /** The lines printed for the tokens that fail the MAC check. */
  function Rejections(ts: seq<string>): seq<string> {
    if ts == [] then []
    else
      var last := ts[|ts| - 1];
      Rejections(ts[..|ts| - 1]) + if IsMac(last) then [] else [NotAMac(last)]
  }

  /** Filtering distributes over concatenation: tokens are kept or dropped
      one by one, each where it stood. */
  lemma {:induction false} ValidMacsAppend(a: seq<string>, b: seq<string>)
    ensures ValidMacs(a + b) == ValidMacs(a) + ValidMacs(b)
    decreases |b|
  {
    if b == [] {
      assert a + b == a;
    } else {
      var init := b[..|b| - 1];
      assert (a + b)[..|a + b| - 1] == a + init;
      ValidMacsAppend(a, init);
    }
  }

  /** A list of valid MACs is kept whole. */
  lemma {:induction false} ValidMacsOfMacs(macs: seq<string>)
    requires forall k :: 0 <= k < |macs| ==> IsMac(macs[k])
    ensures ValidMacs(macs) == macs
    decreases |macs|
  {
    if macs != [] {
      var init, last := macs[..|macs| - 1], macs[|macs| - 1];
      ValidMacsOfMacs(init);
      assert macs == init + [last];
      ValidMacsKeeps(init, last);
    }
  }

  /** A valid MAC after some tokens is kept, after what they keep. */
  lemma ValidMacsKeeps(init: seq<string>, mac: string)
    requires IsMac(mac)
    ensures ValidMacs(init + [mac]) == ValidMacs(init) + [mac]
  {
    assert (init + [mac])[..|init|] == init;
  }

  /** A MAC is a single whitespace-free token. */
  lemma MacIsWord(s: string)
    requires IsMac(s)
    ensures IsWord(s)
  {
    forall j | 0 <= j < |s| ensures !IsWhitespace(s[j]) {
      assert if j % 3 == 2 then s[j] == ':' else IsHexDigit(s[j]);
    }
  }

  /** A list file holding valid MACs separated by any whitespace (one per
      line, runs of blanks or tabs, CR LF line ends), with any whitespace
      before the first and after the last, is read back as exactly that
      list, in order, with no complaint. */
  lemma MacFileRoundTrip(lead: string, macs: seq<string>, gaps: seq<string>)
    requires forall k :: 0 <= k < |macs| ==> IsMac(macs[k])
    requires AllWhite(lead) && |gaps| == |macs|
    requires forall k :: 0 <= k < |gaps| ==> AllWhite(gaps[k])
    requires forall k :: 0 <= k < |gaps| - 1 ==> gaps[k] != []
    ensures ValidMacs(Tokens(lead + Layout(macs, gaps))) == macs
    ensures Rejections(Tokens(lead + Layout(macs, gaps))) == []
  {
    forall k | 0 <= k < |macs| ensures IsWord(macs[k]) { MacIsWord(macs[k]); }
    SeparatedOfGaps(macs, gaps);
    TokensOfLayout(lead, macs, gaps);
    ValidMacsOfMacs(macs);
    NoRejections(macs);
  }

  /** Complaints are made token by token, each where its token stood. */
  lemma {:induction false} RejectionsAppend(a: seq<string>, b: seq<string>)
    ensures Rejections(a + b) == Rejections(a) + Rejections(b)
    decreases |b|
  {
    if b == [] {
      assert a + b == a;
    } else {
      var init := b[..|b| - 1];
      assert (a + b)[..|a + b| - 1] == a + init;
      RejectionsAppend(a, init);
    }
  }

  /** A token that is not a MAC gets exactly its complaint line, and a MAC
      none. */
  lemma RejectionOfToken(t: string)
    ensures !IsMac(t) ==> Rejections([t]) == [NotAMac(t)]
    ensures IsMac(t) ==> Rejections([t]) == []
  {
    assert [t][..0] == [];
  }

  lemma {:induction false} NoRejections(macs: seq<string>)
    requires forall k :: 0 <= k < |macs| ==> IsMac(macs[k])
    ensures Rejections(macs) == []
    decreases |macs|
  {
    if macs != [] { NoRejections(macs[..|macs| - 1]); }
  }

  /** The check `parse` runs over a `-w` or `-b` list: the first invalid
      entry, if any. */
  method CheckMacs(ms: seq<string>) returns (bad: Option<string>)
    ensures bad == FirstInvalid(ms)
  {
    var k := 0;
    while k < |ms|
      invariant 0 <= k <= |ms|
      invariant FirstInvalid(ms) == FirstInvalid(ms[k..])
    {
      assert ms[k..][1..] == ms[k + 1..];
      if !IsMac(ms[k]) {
        return Some(ms[k]);
      }
      k := k + 1;
    }
    return None;
  }

  /** The loop over the tokens of the list file: valid MACs are pushed onto
      the list, the others reported. */
  method CollectMacs(ts: seq<string>) returns (list: seq<string>, log: seq<string>)
    ensures list == ValidMacs(ts)
    ensures log == Rejections(ts)
  {
    list, log := [], [];
    var k := 0;
    while k < |ts|
      invariant 0 <= k <= |ts|
      invariant list == ValidMacs(ts[..k])
      invariant log == Rejections(ts[..k])
    {
      assert ts[..k + 1][..k] == ts[..k];
      if IsMac(ts[k]) {
        list := list + [ts[k]];
      } else {
        log := log + [NotAMac(ts[k])];
      }
      k := k + 1;
    }
    assert ts[..k] == ts;
  }

  /** The path of the MAC-list file: `-f`, or else the default one. */
  function ListPath(m: Matches, defaultList: string): string {
    m.ValueOf(BlackListFile).GetOr(defaultList)
  }

  /** The text of a readable file. */
  function TextOf(e: FileEntry): string {
    match e
    case Readable(t) => t
    case Unreadable(_) => []
  }

  /** The list read from `f`: the valid MACs among its whitespace-separated
      tokens when `f` names a file, and none otherwise. */
  function FileList(files: map<string, FileEntry>, f: string): Option<seq<string>> {
    if IsFile(files, f) then Some(ValidMacs(Tokens(TextOf(files[f])))) else None
  }

  /** The lines printed while reading `f`: one per invalid token when `f`
      names a file, and one saying it is not a file otherwise. */
  function FileLog(files: map<string, FileEntry>, f: string): seq<string> {
    if IsFile(files, f) then Rejections(Tokens(TextOf(files[f]))) else [NotAFile(f)]
  }

  /** Why parsing panics, if it does: an invalid `-w` entry, then an
      invalid `-b` entry, then a list file that cannot be read. */
  function Failure(m: Matches, files: map<string, FileEntry>, defaultList: string): Option<string> {
    match FirstInvalid(m.ValuesOf(AddWhiteList).GetOr([]))
    case Some(bad) => Some(InvalidMac(bad))
    case None =>
      match FirstInvalid(m.ValuesOf(AddBlackList).GetOr([]))
      case Some(bad) => Some(InvalidMac(bad))
      case None =>
        var f := ListPath(m, defaultList);
        if IsFile(files, f) && files[f].Unreadable? then Some(CantRead(f, files[f].error)) else None
  }

  /** Parsing panics exactly when a `-w` or `-b` entry is not a MAC or the
      list file exists but cannot be read. */
  lemma FailureCases(m: Matches, files: map<string, FileEntry>, defaultList: string)
    ensures var white := m.ValuesOf(AddWhiteList).GetOr([]);
      var black := m.ValuesOf(AddBlackList).GetOr([]);
      var f := ListPath(m, defaultList);
      Failure(m, files, defaultList).Some? <==>
        (exists k :: 0 <= k < |white| && !IsMac(white[k]))
        || (exists k :: 0 <= k < |black| && !IsMac(black[k]))
        || (IsFile(files, f) && files[f].Unreadable?)
  {
  }

  /** The list-file step of `parse`: the file's valid MACs when the path
      names a file, a panic when that file cannot be read, and a complaint
      when the path names no file. */
  method ReadListFile(files: map<string, FileEntry>, f: string)
    returns (panic: Option<string>, list: Option<seq<string>>, log: seq<string>)
    ensures panic.Some? <==> IsFile(files, f) && files[f].Unreadable?
    ensures panic.Some? ==> panic.value == CantRead(f, files[f].error)
    ensures panic.None? ==>
      list == FileList(files, f)
      && log == FileLog(files, f)
  {
    if IsFile(files, f) {
      var entry := files[f];
      if entry.Unreadable? {
        return Some(CantRead(f, entry.error)), None, [];
      }
      var l, rejected := CollectMacs(Tokens(entry.text));
      return None, Some(l), rejected;
    } else {
      return None, None, [NotAFile(f)];
    }
  }

  /** The list steps of `Args::parse`: the `-w` and `-b` MACs, each
      checked in full before it is kept, then the MAC-list file. */
  method ParseLists(m: Matches, files: map<string, FileEntry>, defaultList: string)
    returns (panic: Option<string>, addWhiteList: Option<seq<string>>, addBlackList: Option<seq<string>>,
             blackListFile: Option<seq<string>>, log: seq<string>)
    ensures panic == Failure(m, files, defaultList)
    ensures panic.None? ==>
      var f := ListPath(m, defaultList);
      addWhiteList == m.ValuesOf(AddWhiteList)
      && addBlackList == m.ValuesOf(AddBlackList)
      && blackListFile == FileList(files, f)
      && log == FileLog(files, f)
  {
    addWhiteList, addBlackList, blackListFile, log := None, None, None, [];
    var white := m.ValuesOf(AddWhiteList);
    if white.Some? {
      var bad := CheckMacs(white.value);
      if bad.Some? {
        return Some(InvalidMac(bad.value)), None, None, None, [];
      }
      addWhiteList := Some(white.value);
    }

    var black := m.ValuesOf(AddBlackList);
    if black.Some? {
      var bad := CheckMacs(black.value);
      if bad.Some? {
        return Some(InvalidMac(bad.value)), None, None, None, [];
      }
      addBlackList := Some(black.value);
    }

    var f := m.ValueOf(BlackListFile).GetOr(defaultList);
    panic, blackListFile, log := ReadListFile(files, f);
  }

  /** `Args::parse`. */
  method Parse(m: Matches, files: map<string, FileEntry>, defaultList: string)
    returns (r: Parsed, log: seq<string>)
    ensures r.Panic? <==> Failure(m, files, defaultList).Some?
    ensures r.Panic? ==> r.message == Failure(m, files, defaultList).value && log == []
    ensures r.Parsed? ==>
      var a := r.args;
      var f := ListPath(m, defaultList);
      a.password == m.ValueOf(Password).GetOr(DefaultPassword)
      && a.router == m.ValueOf(RouterAddr).GetOr(RouterDefaultAddr)
      && a.addWhiteList == m.ValuesOf(AddWhiteList)
      && a.addBlackList == m.ValuesOf(AddBlackList)
      && a.blackListFile == FileList(files, f)
      && log == FileLog(files, f)
    ensures r.Parsed? ==>
      var a := r.args;
      (a.loginOnly <==> m.IsPresent(LoginOnly))
      && (a.getClientsOnly <==> m.IsPresent(GetClientsOnly))
      && (a.getMacsOnly <==> m.IsPresent(GetMacsOnly))
      && (a.showStatus <==> m.IsPresent(ShowStatus))
      && (a.showWhiteList <==> m.IsPresent(ShowWhiteList))
      && (a.showBlackList <==> m.IsPresent(ShowBlackList))
      && (a.enableMacflt <==> m.IsPresent(EnableMacflt))
      && (a.disableMacflt <==> m.IsPresent(DisableMacflt))
      && (a.logout <==> m.IsPresent(Logout))
      && (a.reboot <==> m.IsPresent(Reboot))
      && (a.verbose <==> m.IsPresent(Verbose))
  {
    var password: string;
    var p := m.ValueOf(Password);
    if p.Some? {
      password := p.value;
    } else {
      password := DefaultPassword;
    }

    var panic, addWhiteList, addBlackList, blackListFile;
    panic, addWhiteList, addBlackList, blackListFile, log := ParseLists(m, files, defaultList);
    if panic.Some? {
      return Panic(panic.value), [];
    }

    var router: string;
    var v := m.ValueOf(RouterAddr);
    if v.Some? {
      router := v.value;
    } else {
      router := RouterDefaultAddr;
    }

    // each flag starts false and is set when its option is present
    var loginOnly := m.IsPresent(LoginOnly);
    var getClientsOnly := m.IsPresent(GetClientsOnly);
    var getMacsOnly := m.IsPresent(GetMacsOnly);
    var showStatus := m.IsPresent(ShowStatus);
    var showWhiteList := m.IsPresent(ShowWhiteList);
    var showBlackList := m.IsPresent(ShowBlackList);
    var enableMacflt := m.IsPresent(EnableMacflt);
    var disableMacflt := m.IsPresent(DisableMacflt);
    var logout := m.IsPresent(Logout);
    var reboot := m.IsPresent(Reboot);
    var verbose := m.IsPresent(Verbose);

    r := Parsed(Args(router, password, loginOnly, getClientsOnly, getMacsOnly, showStatus,
                     enableMacflt, disableMacflt, addWhiteList, addBlackList, blackListFile,
                     showWhiteList, showBlackList, logout, reboot, verbose));
  }
}
