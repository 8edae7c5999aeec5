/** The router operations: the request each one sends, and what it makes of
    the router's answer. The answer is a parameter (`Ok(page)` or the
    transport's error), as the socket exchange is not part of this model. */
module Router {
  import opened Io
  import opened Text
  import Client
  import opened Patterns
  import opened Sorting

  /** A request: its path, and its form body (empty for a GET). */
  datatype Request = Request(path: string, body: string) {
    /** The text written to the socket: `client::post(path, body)`, which
        is `client::get(path)` when the body is empty. */
    function Wire(): string {
      Client.PostRequest(path, body)
    }
  }

  /** `call(..)?; Ok(())`: the answer is dropped and only an error kept. */
  function Completed<T>(response: Result<T>): (r: Result<()>)
    ensures r.Ok? <==> response.Ok?
    ensures r.Err? ==> r.error == response.error
  {
    match response
    case Ok(_) => Ok(())
    case Err(e) => Err(e)
  }

  // ---------------------------------------------------------------- MACs

  predicate IsHexDigit(c: char) {
    '0' <= c <= '9' || 'a' <= c <= 'f' || 'A' <= c <= 'F'
  }

  predicate HexPairAt(s: string, i: nat) {
    i + 2 <= |s| && IsHexDigit(s[i]) && IsHexDigit(s[i + 1])
  }

  /** `([a-fA-F0-9]{2}:){n}[a-fA-F0-9]{2}$` matched at the start of `s`. */
  predicate GroupsThenPair(s: string, n: nat)
    decreases n
  {
    if n == 0 then |s| == 2 && HexPairAt(s, 0)
    else HexPairAt(s, 0) && |s| >= 3 && s[2] == ':' && GroupsThenPair(s[3..], n - 1)
  }

  /** `MAC_VALIDATE.is_match(s)`: the anchored pattern
      `^([a-fA-F0-9]{2}:){5}[a-fA-F0-9]{2}$`. */
  function IsMac(s: string): (b: bool)
    ensures b <==> ColonHexShape(s, 5)
  {
    GroupsThenPairShape(s, 5);
    GroupsThenPair(s, 5)
  }

  /** `n + 1` hex pairs separated by colons, described by position. */
  predicate ColonHexShape(s: string, n: nat) {
    |s| == 3 * n + 2
    && forall i :: 0 <= i < |s| ==> if i % 3 == 2 then s[i] == ':' else IsHexDigit(s[i])
  }

  lemma {:induction false} GroupsThenPairShape(s: string, n: nat)
    ensures GroupsThenPair(s, n) <==> ColonHexShape(s, n)
    decreases n
  {
    if n > 0 && |s| >= 3 {
      var t := s[3..];
      GroupsThenPairShape(t, n - 1);
      assert forall i :: 3 <= i < |s| ==> s[i] == t[i - 3] && (i - 3) % 3 == i % 3;
      if ColonHexShape(t, n - 1) && HexPairAt(s, 0) && s[2] == ':' {
        forall i | 0 <= i < |s|
          ensures if i % 3 == 2 then s[i] == ':' else IsHexDigit(s[i])
        {
          if i >= 3 { assert if (i - 3) % 3 == 2 then t[i - 3] == ':' else IsHexDigit(t[i - 3]); }
        }
      }
      if ColonHexShape(s, n) {
        assert s[0] == s[0] && 0 % 3 == 0 && 1 % 3 == 1 && 2 % 3 == 2;
        forall j | 0 <= j < |t|
          ensures if j % 3 == 2 then t[j] == ':' else IsHexDigit(t[j])
        {
          assert (j + 3) % 3 == j % 3;
          assert if (j + 3) % 3 == 2 then s[j + 3] == ':' else IsHexDigit(s[j + 3]);
        }
      }
    } else if n == 0 {
      if |s| == 2 { assert 0 % 3 == 0 && 1 % 3 == 1; }
    }
  }

  /** The two strings the program's own test routine feeds the check. */
  lemma IsMacExamples()
    ensures IsMac("Ac:5f:04:db:ea:49")
    ensures !IsMac("hello:world:94859")
  {
    var s := "Ac:5f:04:db:ea:49";
    assert s[3..][3..][3..][3..][3..] == "49";
  }

  /** A MAC holds no hyphen, so it cannot be confused with the list
      separator of the filter form, and no carriage return, so it cannot
      break a request line. */
  lemma MacHasNoDashOrCr(s: string)
    requires IsMac(s)
    ensures '-' !in s && '\r' !in s
  {
    forall i | 0 <= i < |s| ensures s[i] != '-' && s[i] != '\r' {
      assert if i % 3 == 2 then s[i] == ':' else IsHexDigit(s[i]);
    }
  }

  // --------------------------------------------------------------- login

  const LoginPath: string := "/GponForm/LoginForm"
  const LoginBodyHead: string := "XWebPageName=index&username=admin&password="
  const WrongPassword: string := "wrong password or someone logged in"

  /** What `login` posts for a password. */
  function LoginRequest(password: string): Request {
    Request(LoginPath, LoginBodyHead + password)
  }

  /** `login` is a POST whose last line is the form with the password
      appended verbatim, so the password can be read back from it. */
  lemma LoginRequestLines(password: string)
    requires '\r' !in password
    ensures var body := LoginBodyHead + password;
      Client.Lines(LoginRequest(password).Wire())
        == ["POST " + LoginPath + " HTTP/1.1", Client.HostLine, Client.AcceptLine,
            "User-Agent: " + Client.UserAgent + Client.ConnectionLine, "", body]
      && body[|LoginBodyHead|..] == password
  {
    assert '\r' !in LoginPath;
    LoginBodyHeadHasNoCr();
    Client.PostRequestLines(LoginPath, LoginBodyHead + password);
  }

  /** The page contains `login`, one character other than a line feed,
      then `html`. */
  predicate HasLoginMarker(page: string) {
    exists i: nat :: i + 10 <= |page| && OccursAt(page, "login", i)
      && page[i + 5] != '\n' && OccursAt(page, "html", i + 6)
  }

  /** `login`: the answer to the login form is the login page again exactly
      when the password was refused (or another session holds the router). */
  function Login(response: Result<string>): (r: Result<()>)
    ensures response.Err? ==> r == Err(response.error)
    ensures response.Ok? ==> (r.Err? <==> HasLoginMarker(response.value))
    ensures response.Ok? && r.Err? ==> r.error == Other(WrongPassword)
  {
    match response
    case Err(e) => Err(e)
    case Ok(page) =>
      match Find(LoginValidate, page, 0)
      case Some(m) =>
        assert LoginValidateAt(page, m.start).Some?;
        Err(Other(WrongPassword))
      case None =>
        assert !HasLoginMarker(page) by {
          forall i: nat | i + 10 <= |page| ensures !(OccursAt(page, "login", i)
            && page[i + 5] != '\n' && OccursAt(page, "html", i + 6))
          {
            assert MatchAt(LoginValidate, page, i).None?;
          }
        }
        Ok(())
  }

  /** `LOGIN_VALIDATE` leaves its dot unescaped: any character but a line
      feed may stand between `login` and `html`. */
  lemma LoginMarkerExamples()
    ensures HasLoginMarker("href=\"login.html\"")
    ensures HasLoginMarker("login-html")
    ensures !HasLoginMarker("login\nhtml")
    ensures !HasLoginMarker("index.html")
  {
    assert OccursAt("href=\"login.html\"", "login", 6) && OccursAt("href=\"login.html\"", "html", 12);
    assert OccursAt("login-html", "login", 0) && OccursAt("login-html", "html", 6);
    var p := "index.html";
    forall i: nat | i + 10 <= |p| ensures !OccursAt(p, "login", i) {
      assert p[i] == 'i';
    }
  }

  // ------------------------------------------------- logout, reboot, disable

  const LogoutPath: string := "/logout.html"
  const RebootPath: string := "/GponForm/reboot_XForm"
  const RebootBody: string := "XWebPageName=reboot&admin_action=reboot"
  const MacFltPath: string := "/GponForm/mac_filter_XForm"
  /** The tail shared by the enable and disable forms. */
  const FormTail: string := "&macfltmode=0&XWebPageName=mac_filter"
  const DisableBody: string := "macfltlist=" + FormTail

  const LogoutRequest: Request := Request(LogoutPath, "")
  const RebootRequest: Request := Request(RebootPath, RebootBody)
  const DisableRequest: Request := Request(MacFltPath, DisableBody)

  lemma LoginBodyHeadHasNoCr() ensures '\r' !in LoginBodyHead {}
  lemma RebootBodyHasNoCr() ensures '\r' !in RebootBody {}
  lemma FormTailHasNoCr() ensures '\r' !in FormTail {}

  lemma DisableBodyHasNoCr()
    ensures '\r' !in DisableBody
  {
    FormTailHasNoCr();
    assert '\r' !in "macfltlist=";
  }

  /** `logout` is a bare GET. */
  lemma LogoutRequestLines()
    ensures Client.Lines(LogoutRequest.Wire())
      == ["GET " + LogoutPath + " HTTP/1.1", Client.HostLine, Client.AcceptLine,
          "User-Agent: " + Client.UserAgent, Client.ConnectionLine, "", ""]
  {
    assert '\r' !in LogoutPath;
    Client.GetRequestLines(LogoutPath, "");
  }

  /** `reboot` posts its fixed form. */
  lemma RebootRequestLines()
    ensures Client.Lines(RebootRequest.Wire())
      == ["POST " + RebootPath + " HTTP/1.1", Client.HostLine, Client.AcceptLine,
          "User-Agent: " + Client.UserAgent + Client.ConnectionLine, "", RebootBody]
  {
    assert '\r' !in RebootPath;
    RebootBodyHasNoCr();
    Client.PostRequestLines(RebootPath, RebootBody);
  }

  /** `macflt_disable` posts the filter form with an empty list. */
  lemma DisableRequestLines()
    ensures Client.Lines(DisableRequest.Wire())
      == ["POST " + MacFltPath + " HTTP/1.1", Client.HostLine, Client.AcceptLine,
          "User-Agent: " + Client.UserAgent + Client.ConnectionLine, "", DisableBody]
  {
    assert '\r' !in MacFltPath;
    DisableBodyHasNoCr();
    Client.PostRequestLines(MacFltPath, DisableBody);
  }

  // --------------------------------------------------------------- enable

  const EnableBodyHead: string := "macfltenable=on&macfltlist=0-"
  const EnableBodyTail: string := FormTail
  const MacSeparator: string := "-.-0-"

  lemma EnableBodyPartsHaveNoCr()
    ensures '\r' !in EnableBodyHead && '\r' !in EnableBodyTail && '\r' !in MacSeparator
  {
    FormTailHasNoCr();
  }

  /** The form `macflt_enable` posts for a list of MACs. */
  function EnableRequest(macs: seq<string>): Request {
    Request(MacFltPath, EnableBodyHead + Join(macs, MacSeparator) + EnableBodyTail)
  }

  /** The MACs `macflt_enable` sends: those of the list file, then those of
      the command line, sorted and with neighbouring repeats dropped. */
  function SentMacs(fileMacs: Option<seq<string>>, argMacs: Option<seq<string>>): seq<string> {
    Dedup(Sort(fileMacs.GetOr([]) + argMacs.GetOr([])))
  }

  /** `macflt_enable`: gathers the MACs, sends nothing when there are none,
      and otherwise posts the filter form with the sorted, duplicate-free
      list. */
  method MacFltEnable(fileMacs: Option<seq<string>>, argMacs: Option<seq<string>>, response: Result<string>)
    returns (sent: Option<Request>, r: Result<()>)
    ensures fileMacs.GetOr([]) + argMacs.GetOr([]) == [] ==> sent == None && r == Ok(())
    ensures fileMacs.GetOr([]) + argMacs.GetOr([]) != [] ==>
      sent == Some(EnableRequest(SentMacs(fileMacs, argMacs))) && r == Completed(response)
  {
    var list: seq<string> := [];
    if fileMacs.Some? {
      var l := fileMacs.value;
      var k := 0;
      while k < |l|
        invariant 0 <= k <= |l|
        invariant list == l[..k]
      {
        list := list + [l[k]];
        k := k + 1;
      }
      assert l[..|l|] == l;
    }
    ghost var fromFile := list;
    if argMacs.Some? {
      var l := argMacs.value;
      var k := 0;
      while k < |l|
        invariant 0 <= k <= |l|
        invariant list == fromFile + l[..k]
      {
        list := list + [l[k]];
        k := k + 1;
      }
      assert l[..|l|] == l;
    }
    if list == [] {
      return None, Ok(());
    }
    assert list == fileMacs.GetOr([]) + argMacs.GetOr([]);
    var a := new string[|list|](i requires 0 <= i < |list| => list[i]);
    assert a[..] == list;
    SortInPlace(a);
    var n := DedupInPlace(a);
    var macs := a[..n];
    assert macs == SentMacs(fileMacs, argMacs);
    sent := Some(EnableRequest(macs));
    r := Completed(response);
  }

  /** The list sent is strictly increasing under the byte order of strings
      (so case matters: `AA:..` and `aa:..` are both kept), holds exactly
      the MACs given, and is empty only when none were given. */
  lemma SentMacsLaws(fileMacs: Option<seq<string>>, argMacs: Option<seq<string>>)
    ensures var all := fileMacs.GetOr([]) + argMacs.GetOr([]);
      var sent := SentMacs(fileMacs, argMacs);
      StrictlyIncreasing(sent)
      && (forall x :: x in sent <==> x in all)
      && (sent == [] <==> all == [])
  {
    var all := fileMacs.GetOr([]) + argMacs.GetOr([]);
    var sorted := Sort(all);
    forall x ensures x in sorted <==> x in all {
      assert x in sorted <==> x in multiset(sorted);
      assert x in all <==> x in multiset(all);
    }
    if all != [] { assert all[0] in sorted; }
    DedupElements(sorted);
    DedupStrictlyIncreasing(sorted);
  }

  /** The request depends only on which MACs were given: not on their
      order, their repetition, or on which of the two lists held them. */
  lemma SentMacsDependOnlyOnElements(f1: Option<seq<string>>, a1: Option<seq<string>>,
                                     f2: Option<seq<string>>, a2: Option<seq<string>>)
    requires forall x :: x in f1.GetOr([]) + a1.GetOr([]) <==> x in f2.GetOr([]) + a2.GetOr([])
    ensures SentMacs(f1, a1) == SentMacs(f2, a2)
  {
    SentMacsLaws(f1, a1);
    SentMacsLaws(f2, a2);
    StrictlyIncreasingUnique(SentMacs(f1, a1), SentMacs(f2, a2));
  }

  /** The MAC list is recovered from the enable form by cutting off its
      fixed head and tail and splitting on the separator. */
  lemma EnableBodyRoundTrip(macs: seq<string>)
    requires |macs| >= 1
    requires forall k :: 0 <= k < |macs| ==> IsMac(macs[k])
    ensures var body := EnableRequest(macs).body;
      |EnableBodyHead| + |EnableBodyTail| <= |body|
      && Split(body[|EnableBodyHead|..|body| - |EnableBodyTail|], MacSeparator) == macs
  {
    var joined := Join(macs, MacSeparator);
    var body := EnableBodyHead + joined + EnableBodyTail;
    assert body[|EnableBodyHead|..|body| - |EnableBodyTail|] == joined;
    forall k | 0 <= k < |macs| ensures MacSeparator[0] !in macs[k] {
      MacHasNoDashOrCr(macs[k]);
    }
    SplitJoin(macs, MacSeparator);
  }

  /** The enable form is a POST whose body is the last line. */
  lemma EnableRequestLines(macs: seq<string>)
    requires forall k :: 0 <= k < |macs| ==> IsMac(macs[k])
    ensures Client.Lines(EnableRequest(macs).Wire())
      == ["POST " + MacFltPath + " HTTP/1.1", Client.HostLine, Client.AcceptLine,
          "User-Agent: " + Client.UserAgent + Client.ConnectionLine, "", EnableRequest(macs).body]
  {
    forall k | 0 <= k < |macs| ensures '\r' !in macs[k] {
      MacHasNoDashOrCr(macs[k]);
    }
    EnableBodyPartsHaveNoCr();
    JoinExcludes(macs, MacSeparator, '\r');
    assert '\r' !in MacFltPath;
    Client.PostRequestLines(MacFltPath, EnableRequest(macs).body);
  }

  // --------------------------------------------------------------- status

  /** `name` followed by a `0` or `1` and a semicolon occurs at `i`. */
  predicate FlagOccurs(name: string, page: string, i: nat) {
    OccursAt(page, name + "0;", i) || OccursAt(page, name + "1;", i)
  }

  /** The flag occurs somewhere in the page. */
  ghost predicate FlagPresent(name: string, page: string) {
    exists i: nat :: FlagOccurs(name, page, i)
  }

  /** The leftmost occurrence of the flag carries the digit `1`. */
  ghost predicate FlagSetFirst(name: string, page: string) {
    exists i: nat :: OccursAt(page, name + "1;", i)
      && forall j: nat :: j < i ==> !FlagOccurs(name, page, j)
  }

  /** The flag's two spellings cannot occur at the same place. */
  lemma FlagDigitsExclusive(name: string, page: string, i: nat)
    ensures !(OccursAt(page, name + "0;", i) && OccursAt(page, name + "1;", i))
  {
    OccurrenceSplits(name, page, i, "0;");
    OccurrenceSplits(name, page, i, "1;");
  }

  /** The flag name a flag pattern looks for. */
  function FlagName(p: Pattern): string {
    if p == Pattern.MacFltStatus then EnableFlag else ModeFlag
  }

  /** When the scan finds nothing, the flag occurs nowhere. */
  lemma FlagNotFound(p: Pattern, page: string)
    requires p == Pattern.MacFltStatus || p == MacFltMode
    requires Find(p, page, 0).None?
    ensures !FlagPresent(FlagName(p), page)
  {
    forall i: nat ensures !FlagOccurs(FlagName(p), page, i) {
      if i < |page| { assert MatchAt(p, page, i).None?; }
    }
  }

  /** Once the leftmost occurrence is known, the flag is set first
      exactly when that occurrence says `1`. */
  lemma FlagFirstAt(name: string, page: string, i: nat)
    requires FlagOccurs(name, page, i)
    requires forall j: nat :: j < i ==> !FlagOccurs(name, page, j)
    ensures FlagSetFirst(name, page) <==> OccursAt(page, name + "1;", i)
  {
    if !OccursAt(page, name + "1;", i) {
      forall i': nat | OccursAt(page, name + "1;", i')
        ensures exists j: nat :: j < i' && FlagOccurs(name, page, j)
      {
        assert FlagOccurs(name, page, i');
        assert i < i';
      }
    }
  }

  /** A flag pattern matches exactly where its flag occurs. */
  lemma FlagMatch(p: Pattern, page: string, j: nat)
    requires p == Pattern.MacFltStatus || p == MacFltMode
    ensures MatchAt(p, page, j) == FlagAt(FlagName(p), page, j)
    ensures MatchAt(p, page, j).None? <==> !FlagOccurs(FlagName(p), page, j)
  {
  }

  /** No match before `i` means no occurrence of the flag before `i`. */
  lemma FlagNoneBefore(p: Pattern, page: string, i: nat)
    requires p == Pattern.MacFltStatus || p == MacFltMode
    requires NoMatchBetween(p, page, 0, i)
    ensures forall j: nat :: j < i ==> !FlagOccurs(FlagName(p), page, j)
  {
    forall j: nat | j < i ensures !FlagOccurs(FlagName(p), page, j) {
      FlagMatch(p, page, j);
    }
  }

  /** An occurrence whose digit is `g` says `1` exactly when `g` is `1`. */
  lemma FlagDigit(name: string, page: string, i: nat, g: string)
    requires g == "0" || g == "1"
    requires OccursAt(page, name + g + ";", i)
    ensures OccursAt(page, name + "1;", i) <==> g == "1"
  {
    FlagDigitsExclusive(name, page, i);
    if g == "1" {
      assert name + g + ";" == name + "1;";
    } else {
      assert name + g + ";" == name + "0;";
    }
  }

  /** When the scan finds a match, the flag is present, and its leftmost
      occurrence says `1` exactly when the match captured `1`. */
  lemma FlagFound(p: Pattern, page: string, m: Capture)
    requires p == Pattern.MacFltStatus || p == MacFltMode
    requires Find(p, page, 0) == Some(m)
    ensures FlagPresent(FlagName(p), page)
    ensures FlagSetFirst(FlagName(p), page) <==> m.group == "1"
  {
    var name := FlagName(p);
    var i := m.start;
    FlagMatch(p, page, i);
    assert FlagOccurs(name, page, i);
    FlagNoneBefore(p, page, i);
    FlagFirstAt(name, page, i);
    FlagDigit(name, page, i, m.group);
  }

  /** `FLAG.captures(page)` read as a boolean: absent, or whether its
      leftmost occurrence says `1`. */
  function LeadingFlag(p: Pattern, page: string): (r: Option<bool>)
    requires p == Pattern.MacFltStatus || p == MacFltMode
    ensures r.None? <==> !FlagPresent(FlagName(p), page)
    ensures r.Some? ==> (r.value <==> FlagSetFirst(FlagName(p), page))
  {
    match Find(p, page, 0)
    case None =>
      FlagNotFound(p, page);
      None
    case Some(m) =>
      FlagFound(p, page, m);
      Some(m.group == "1")
  }

  /** What `macflt_status` reports. */
  datatype FilterStatus = FilterStatus(enabled: bool, whiteListMode: bool, macs: seq<string>)

  const StatusMissing: string := "match MACFLT_STATUS failed"
  const ModeMissing: string := "match MACFLT_MODE failed"

  const StatusPath: string := "/mac_filter.html"
  /** `macflt_status` fetches the filter page with a bare GET. */
  const StatusRequest: Request := Request(StatusPath, "")

  lemma StatusRequestLines()
    ensures Client.Lines(StatusRequest.Wire())
      == ["GET " + StatusPath + " HTTP/1.1", Client.HostLine, Client.AcceptLine,
          "User-Agent: " + Client.UserAgent, Client.ConnectionLine, "", ""]
  {
    assert '\r' !in StatusPath;
    Client.GetRequestLines(StatusPath, "");
  }

  /** `macflt_status` on the answer to `StatusRequest`: the enable
      flag, then the mode flag, each from its leftmost occurrence and each
      an error when absent (the enable flag checked first), and every
      `Mac:"..."` entry of the page in order. */
  function MacFltStatus(response: Result<string>): (r: Result<FilterStatus>)
    ensures response.Err? ==> r == Err(response.error)
    ensures response.Ok? ==>
      var page := response.value;
      (r == Err(Other(StatusMissing)) <==> !FlagPresent(EnableFlag, page))
      && (FlagPresent(EnableFlag, page) ==> (r == Err(Other(ModeMissing)) <==> !FlagPresent(ModeFlag, page)))
      && (r.Ok? <==> FlagPresent(EnableFlag, page) && FlagPresent(ModeFlag, page))
      && (r.Ok? ==>
            (r.value.enabled <==> FlagSetFirst(EnableFlag, page))
            && (r.value.whiteListMode <==> FlagSetFirst(ModeFlag, page))
            && r.value.macs == Groups(FindAll(MacFltList, page, 0)))
  {
    match response
    case Err(e) => Err(e)
    case Ok(page) =>
      match LeadingFlag(Pattern.MacFltStatus, page)
      case None => Err(Other(StatusMissing))
      case Some(enabled) =>
        match LeadingFlag(MacFltMode, page)
        case None => Err(Other(ModeMissing))
        case Some(whiteList) => Ok(FilterStatus(enabled, whiteList, Groups(FindAll(MacFltList, page, 0))))
  }

  /** A filter-list entry as the router's page writes it. */
  function MacEntry(m: string): string {
    "Mac:\"" + m + "\""
  }

  function RenderMacs(ms: seq<string>): string {
    if ms == [] then [] else MacEntry(ms[0]) + RenderMacs(ms[1..])
  }

  /** An entry at the scan position is the next match, ending where the entry ends. */
  lemma MacEntryStep(pre: string, ms: seq<string>)
    requires ms != [] && ms[0] != [] && '"' !in ms[0]
    ensures FindAll(MacFltList, pre + RenderMacs(ms), |pre|)
      == [Capture(|pre|, |pre| + |ms[0]| + 6, ms[0])] + FindAll(MacFltList, pre + RenderMacs(ms), |pre + MacEntry(ms[0])|)
  {
    var e := MacEntry(ms[0]);
    var s := pre + RenderMacs(ms);
    RenderMacsCons(pre, ms);
    assert OccursAt(s, e, |pre|) by { assert s[|pre|..|pre| + |e|] == e; }
    MacFltListAtComplete(s, |pre|, ms[0]);
    FindAllAt(MacFltList, s, |pre|, Capture(|pre|, |pre| + |ms[0]| + 6, ms[0]));
  }

  /** One entry in front of a run whose scan is known: the scan gains that
      entry's MAC in front. */
  lemma MacEntriesCons(pre: string, ms: seq<string>)
    requires ms != [] && ms[0] != [] && '"' !in ms[0]
    requires Groups(FindAll(MacFltList, pre + RenderMacs(ms), |pre + MacEntry(ms[0])|)) == ms[1..]
    ensures Groups(FindAll(MacFltList, pre + RenderMacs(ms), |pre|)) == ms
  {
    MacEntryStep(pre, ms);
    GroupsPrepend(Capture(|pre|, |pre| + |ms[0]| + 6, ms[0]),
      FindAll(MacFltList, pre + RenderMacs(ms), |pre + MacEntry(ms[0])|), ms);
  }

  lemma RenderMacsCons(pre: string, ms: seq<string>)
    requires ms != []
    ensures pre + RenderMacs(ms) == pre + MacEntry(ms[0]) + RenderMacs(ms[1..])
  {
  }

  lemma GroupsPrepend(c: Capture, tail: seq<Capture>, gs: seq<string>)
    requires gs != [] && c.group == gs[0] && Groups(tail) == gs[1..]
    ensures Groups([c] + tail) == gs
  {
    GroupsCons(c, tail);
    assert gs == [gs[0]] + gs[1..];
  }

  /** Scanning a run of entries yields exactly their MACs, in order. */
  lemma {:induction false} MacEntriesScanned(pre: string, ms: seq<string>)
    requires forall k :: 0 <= k < |ms| ==> ms[k] != [] && '"' !in ms[k]
    ensures Groups(FindAll(MacFltList, pre + RenderMacs(ms), |pre|)) == ms
    decreases |ms|
  {
    if ms == [] {
      assert pre + RenderMacs(ms) == pre;
      FindAllAtEnd(MacFltList, pre);
    } else {
      MacEntriesScanned(pre + MacEntry(ms[0]), ms[1..]);
      RenderMacsCons(pre, ms);
      MacEntriesCons(pre, ms);
    }
  }

  /** The filter list read from a page made of entries is those entries. */
  lemma MacsOfPage(ms: seq<string>)
    requires forall k :: 0 <= k < |ms| ==> ms[k] != [] && '"' !in ms[k]
    ensures Groups(FindAll(MacFltList, RenderMacs(ms), 0)) == ms
  {
    MacEntriesScanned([], ms);
    assert [] + RenderMacs(ms) == RenderMacs(ms);
  }

  // -------------------------------------------------------------- clients

  /** The rows `active_clients` tabulates: each record split on `|`. */
  function Rows(ms: seq<Capture>): (rows: seq<seq<string>>)
    ensures |rows| == |ms|
    ensures forall k :: 0 <= k < |ms| ==>
      Join(rows[k], "|") == ms[k].group && |rows[k]| == CountChar(ms[k].group, '|') + 1
  {
    if ms == [] then []
    else
      SplitFieldCount(ms[0].group, '|');
      [Split(ms[0].group, "|")] + Rows(ms[1..])
  }

  const ClientsPath: string := "/laninfo.html"
  /** `active_clients` fetches the LAN information page with a bare GET. */
  const ClientsRequest: Request := Request(ClientsPath, "")

  lemma ClientsRequestLines()
    ensures Client.Lines(ClientsRequest.Wire())
      == ["GET " + ClientsPath + " HTTP/1.1", Client.HostLine, Client.AcceptLine,
          "User-Agent: " + Client.UserAgent, Client.ConnectionLine, "", ""]
  {
    assert '\r' !in ClientsPath;
    Client.GetRequestLines(ClientsPath, "");
  }

  /** `active_clients` on the answer to `ClientsRequest`: one row per
      `client_list[N]='...';` record, in order. */
  function ActiveClients(response: Result<string>): (r: Result<seq<seq<string>>>)
    ensures response.Err? ==> r == Err(response.error)
    ensures response.Ok? ==> r == Ok(Rows(FindAll(ClientsList, response.value, 0)))
  {
    match response
    case Err(e) => Err(e)
    case Ok(page) => Ok(Rows(FindAll(ClientsList, page, 0)))
  }

  /** A client as the router's page lists it: a numeric id and its fields. */
  datatype LanClient = LanClient(id: string, fields: seq<string>)

  predicate WellFormedClient(c: LanClient) {
    c.id != [] && AllDigits(c.id) && |c.fields| >= 1 && Join(c.fields, "|") != []
    && forall k :: 0 <= k < |c.fields| ==> '|' !in c.fields[k] && '\'' !in c.fields[k]
  }

  function ClientEntry(c: LanClient): string {
    "client_list[" + c.id + "]='" + Join(c.fields, "|") + "';"
  }

  function RenderClients(cs: seq<LanClient>): string {
    if cs == [] then [] else ClientEntry(cs[0]) + RenderClients(cs[1..])
  }

  function Fields(cs: seq<LanClient>): (fs: seq<seq<string>>)
    ensures |fs| == |cs|
    ensures forall k :: 0 <= k < |cs| ==> fs[k] == cs[k].fields
  {
    if cs == [] then [] else [cs[0].fields] + Fields(cs[1..])
  }

  lemma RowsCons(m: Capture, ms: seq<Capture>)
    ensures Rows([m] + ms) == [Split(m.group, "|")] + Rows(ms)
  {
    assert ([m] + ms)[1..] == ms;
  }

  /** One well-formed record is one match of the record pattern, spanning
      the whole record. */
  lemma ClientEntryMatches(s: string, i: nat, c: LanClient)
    requires WellFormedClient(c)
    requires OccursAt(s, ClientEntry(c), i)
    ensures i < |s|
    ensures MatchAt(ClientsList, s, i) == Some(Capture(i, i + |ClientEntry(c)|, Join(c.fields, "|")))
  {
    JoinExcludes(c.fields, "|", '\'');
    ClientsListAtComplete(s, i, c.id, Join(c.fields, "|"));
  }

  /** A record at the scan position is the next match, ending where the
      record ends. */
  lemma ClientEntryStep(pre: string, c: LanClient, rest: string)
    requires WellFormedClient(c)
    ensures FindAll(ClientsList, pre + ClientEntry(c) + rest, |pre|)
      == [Capture(|pre|, |pre + ClientEntry(c)|, Join(c.fields, "|"))]
         + FindAll(ClientsList, pre + ClientEntry(c) + rest, |pre + ClientEntry(c)|)
  {
    var e := ClientEntry(c);
    var s := pre + e + rest;
    assert OccursAt(s, e, |pre|) by { assert s[|pre|..|pre| + |e|] == e; }
    ClientEntryMatches(s, |pre|, c);
    FindAllAt(ClientsList, s, |pre|, Capture(|pre|, |pre + e|, Join(c.fields, "|")));
  }

  lemma RenderClientsCons(pre: string, cs: seq<LanClient>)
    requires cs != []
    ensures pre + RenderClients(cs) == pre + ClientEntry(cs[0]) + RenderClients(cs[1..])
  {
  }

  lemma RowsPrepend(m: Capture, tail: seq<Capture>, fs: seq<seq<string>>)
    requires fs != [] && Split(m.group, "|") == fs[0] && Rows(tail) == fs[1..]
    ensures Rows([m] + tail) == fs
  {
    RowsCons(m, tail);
    assert fs == [fs[0]] + fs[1..];
  }

  lemma FieldsCons(cs: seq<LanClient>)
    requires cs != []
    ensures Fields(cs)[0] == cs[0].fields && Fields(cs)[1..] == Fields(cs[1..])
  {
  }

  /** One record in front of a run whose scan is known: the table gains that
      record's fields in front. */
  lemma ClientEntriesCons(pre: string, cs: seq<LanClient>)
    requires cs != [] && WellFormedClient(cs[0])
    requires Rows(FindAll(ClientsList, pre + ClientEntry(cs[0]) + RenderClients(cs[1..]), |pre + ClientEntry(cs[0])|))
      == Fields(cs[1..])
    ensures Rows(FindAll(ClientsList, pre + RenderClients(cs), |pre|)) == Fields(cs)
  {
    var c := cs[0];
    RenderClientsCons(pre, cs);
    ClientEntryStep(pre, c, RenderClients(cs[1..]));
    SplitJoin(c.fields, "|");
    FieldsCons(cs);
    RowsPrepend(Capture(|pre|, |pre + ClientEntry(c)|, Join(c.fields, "|")),
      FindAll(ClientsList, pre + ClientEntry(c) + RenderClients(cs[1..]), |pre + ClientEntry(c)|), Fields(cs));
  }

  /** Scanning a run of client records yields exactly their fields. */
  lemma {:induction false} ClientEntriesScanned(pre: string, cs: seq<LanClient>)
    requires forall k :: 0 <= k < |cs| ==> WellFormedClient(cs[k])
    ensures Rows(FindAll(ClientsList, pre + RenderClients(cs), |pre|)) == Fields(cs)
    decreases |cs|
  {
    if cs == [] {
      assert pre + RenderClients(cs) == pre;
      FindAllAtEnd(ClientsList, pre);
    } else {
      ClientEntriesScanned(pre + ClientEntry(cs[0]), cs[1..]);
      ClientEntriesCons(pre, cs);
    }
  }

  /** The table `active_clients` prints for a page of client records has one
      row per record, holding that record's fields. */
  lemma ClientsOfPage(cs: seq<LanClient>)
    requires forall k :: 0 <= k < |cs| ==> WellFormedClient(cs[k])
    ensures ActiveClients(Ok(RenderClients(cs))) == Ok(Fields(cs))
  {
    ClientEntriesScanned([], cs);
    assert [] + RenderClients(cs) == RenderClients(cs);
  }
}
