/**
 * The decision logic of the `/mena` admin command in
 * Commands/MenaCommand.php: which handler a command line reaches, the guard
 * order of `remove` and `info`, and the page arithmetic of `logs`. Messages
 * sent to the command's sender are not modelled; each handler's reply is a
 * datatype value naming which message it would send.
 */
module Commands {
  import opened Wrappers
  import PhpArray
  import opened Protections
  import opened ActivityLog
  import Managers

  // ---------------------------------------------------------------------
  // Subcommand selection
  // ---------------------------------------------------------------------

  /** The branch `execute` takes. */
  datatype Handler =
    | DenyPermission
    | SendHelp
    | HandleList
    | HandleRemove
    | HandleInfo
    | HandleGive
    | HandleLogs
    | HandleReload

  /** `strtolower` on one character: ASCII letters only. */
  function LowerChar(c: char): char
  {
    if 'A' <= c <= 'Z' then ('a' as int + (c as int - 'A' as int)) as char else c
  }

  /** `strtolower`: lower-cases each ASCII letter, leaves every other character. */
  function ToLower(s: string): (r: string)
    ensures |r| == |s|
    ensures forall i :: 0 <= i < |s| ==> r[i] == LowerChar(s[i])
  {
    if s == [] then [] else [LowerChar(s[0])] + ToLower(s[1..])
  }

  /** The two words differ at most in the case of ASCII letters. */
  predicate EqualIgnoringCase(s: string, t: string)
  {
    |s| == |t| && forall i :: 0 <= i < |s| ==> LowerChar(s[i]) == LowerChar(t[i])
  }

  lemma ToLowerIgnoresCase(s: string, t: string)
    requires EqualIgnoringCase(s, t)
    ensures ToLower(s) == ToLower(t)
  {
  }

  /** Lower-casing twice is lower-casing once. */
  lemma ToLowerIdempotent(s: string)
    ensures ToLower(ToLower(s)) == ToLower(s)
  {
  }

  /** The `switch` on the lower-cased first argument. */
  function HandlerFor(word: string): Handler
  {
    if word == "list" then HandleList
    else if word == "remove" then HandleRemove
    else if word == "info" then HandleInfo
    else if word == "give" then HandleGive
    else if word == "logs" then HandleLogs
    else if word == "reload" then HandleReload
    else SendHelp
  }

  /**
   * `execute`: without the admin permission, a refusal and `false`; with no
   * argument, the help text and `false`; otherwise the handler the first
   * argument names, in any letter case (help for an unknown one), and `true`.
   */
  function Execute(permitted: bool, args: seq<string>): (r: (Handler, bool))
    ensures !permitted ==> r == (DenyPermission, false)
    ensures permitted && args == [] ==> r == (SendHelp, false)
    ensures permitted && args != [] ==> r.1 && r.0 != DenyPermission
    ensures permitted && args != [] && r.0 != SendHelp ==>
      ToLower(args[0]) in {"list", "remove", "info", "give", "logs", "reload"}
  {
    if !permitted then (DenyPermission, false)
    else if args == [] then (SendHelp, false)
    else (HandlerFor(ToLower(args[0])), true)
  }

  /** Selection is case-insensitive: first arguments equal up to case reach the same handler. */
  lemma ExecuteIgnoresCase(permitted: bool, args: seq<string>, args': seq<string>)
    requires |args| == |args'|
    requires args != [] ==> EqualIgnoringCase(args[0], args'[0])
    ensures Execute(permitted, args) == Execute(permitted, args')
  {
    if args != [] {
      ToLowerIgnoresCase(args[0], args'[0]);
    }
  }

  /** A subcommand name written in any case reaches its handler. */
  lemma ExecuteNamedSubcommand(args: seq<string>, word: string)
    requires word in {"list", "remove", "info", "give", "logs", "reload"}
    requires args != [] && ToLower(args[0]) == word
    ensures Execute(true, args).0 == HandlerFor(word) && Execute(true, args).0 != SendHelp
    ensures Execute(true, args).1
  {
  }

  // ---------------------------------------------------------------------
  // PHP's (int) cast of a string
  // ---------------------------------------------------------------------

  predicate IsSpace(c: char)
  {
    c == ' ' || c == '\t' || c == '\n' || c == '\r' || c == '\U{000B}' || c == '\U{000C}'
  }

  predicate IsDigit(c: char)
  {
    '0' <= c <= '9'
  }

  predicate AllDigits(s: string)
  {
    forall i :: 0 <= i < |s| ==> IsDigit(s[i])
  }

  /** `s` without its leading whitespace. */
  function SkipSpaces(s: string): (t: string)
    ensures |t| <= |s| && t == s[|s| - |t|..]
    ensures forall i :: 0 <= i < |s| - |t| ==> IsSpace(s[i])
    ensures t == [] || !IsSpace(t[0])
  {
    if s != [] && IsSpace(s[0]) then
      var t := SkipSpaces(s[1..]);
      assert forall i :: 1 <= i < |s| ==> s[1..][i - 1] == s[i];
      t
    else s
  }

  /** The length of the run of digits that starts `s`. */
  function DigitRun(s: string): (n: nat)
    ensures n <= |s|
    ensures AllDigits(s[..n])
    ensures n < |s| ==> !IsDigit(s[n])
  {
    if s != [] && IsDigit(s[0]) then
      var n := DigitRun(s[1..]);
      assert s[..n + 1] == [s[0]] + s[1..][..n];
      1 + n
    else 0
  }

  /** The number a string of decimal digits denotes. */
  function DigitsValue(s: string): nat
    requires AllDigits(s)
  {
    if s == [] then 0
    else DigitsValue(s[..|s| - 1]) * 10 + (s[|s| - 1] as int - '0' as int)
  }

  /** The value of the leading digits of `t`; 0 when there are none. */
  function LeadingValue(t: string): nat
  {
    DigitsValue(t[..DigitRun(t)])
  }

  /** After the leading whitespace, an optional sign and a digit. */
  predicate StartsNumeric(s: string)
  {
    var t := SkipSpaces(s);
    var u := if t != [] && (t[0] == '-' || t[0] == '+') then t[1..] else t;
    u != [] && IsDigit(u[0])
  }

  /**
   * `(int)$s`: leading whitespace is skipped, then an optional sign and the
   * longest run of digits give the value; anything after it is ignored.
   * A string that does not start that way casts to 0.
   */
  function CastToInt(s: string): (n: int)
    ensures !StartsNumeric(s) ==> n == 0
  {
    var t := SkipSpaces(s);
    if t != [] && t[0] == '-' then -(LeadingValue(t[1..]) as int)
    else if t != [] && t[0] == '+' then LeadingValue(t[1..])
    else LeadingValue(t)
  }

  /** Decimal digits of `n`, most significant first, without leading zeros. */
  function NatToString(n: nat): (s: string)
    ensures s != [] && AllDigits(s)
    decreases n
  {
    var d := [('0' as int + n % 10) as char];
    if n < 10 then d else NatToString(n / 10) + d
  }

  /** `(string)$n` for an integer. */
  function IntToString(n: int): string
  {
    if n < 0 then "-" + NatToString(-n) else NatToString(n)
  }

  lemma {:induction false} DigitsValueOfNatToString(n: nat)
    ensures DigitsValue(NatToString(n)) == n
    decreases n
  {
    var s := NatToString(n);
    if n >= 10 {
      DigitsValueOfNatToString(n / 10);
      assert s[..|s| - 1] == NatToString(n / 10);
    }
  }

  /** Casting the decimal form of an integer gives the integer back. */
  lemma CastOfIntToString(n: int)
    ensures CastToInt(IntToString(n)) == n
  {
    var m := if n < 0 then -n else n;
    var digits := NatToString(m);
    assert LeadingValue(digits) == m by {
      DigitsValueOfNatToString(m);
      DigitRunOfDigits(digits);
      assert digits[..|digits|] == digits;
    }
    var s := IntToString(n);
    assert !IsSpace(s[0]);
    assert SkipSpaces(s) == s;
    if n < 0 {
      assert s[1..] == digits;
    } else {
      assert s == digits;
    }
  }

  lemma {:induction false} DigitRunOfDigits(s: string)
    requires AllDigits(s)
    ensures DigitRun(s) == |s|
  {
    if s != [] {
      DigitRunOfDigits(s[1..]);
    }
  }

  // ---------------------------------------------------------------------
  // /mena logs: paging
  // ---------------------------------------------------------------------

  const LogsPerPage: nat := 10

  /** `ceil(count($logs) / 10)`. */
  function TotalPages(n: nat): (t: nat)
    ensures t * LogsPerPage >= n
    ensures n > 0 ==> (t - 1) * LogsPerPage < n
    ensures t == 0 <==> n == 0
  {
    (n + LogsPerPage - 1) / LogsPerPage
  }

  /** The page number asked for: the cast second argument, or 1 when there is none. */
  function RequestedPage(args: seq<string>): int
  {
    if |args| >= 2 then CastToInt(args[1]) else 1
  }

  /** The page shown: the one asked for when it exists, page 1 otherwise. */
  function SelectedPage(n: nat, args: seq<string>): (p: int)
    ensures n > 0 ==> 1 <= p <= TotalPages(n)
    ensures 1 <= RequestedPage(args) <= TotalPages(n) ==> p == RequestedPage(args)
    ensures !(1 <= RequestedPage(args) <= TotalPages(n)) ==> p == 1
  {
    var page := RequestedPage(args);
    if page < 1 || page > TotalPages(n) then 1 else page
  }

  /** `array_slice($logs, ($page - 1) * 10, 10, true)`. */
  function PageEntries(logs: Log, page: int): Log
  {
    PhpArray.Slice(logs, (page - 1) * LogsPerPage, Some(LogsPerPage))
  }

  /** What `handleLogs` shows: the page number, the page count and the page's entries. */
  datatype LogsPage = LogsPage(page: int, totalPages: nat, entries: Log)

  /**
   * `handleLogs`: nothing for an empty log; otherwise the selected page,
   * which holds the entries at stored positions `(page - 1) * 10` up to
   * `page * 10` (or the end), oldest first, between one and ten of them.
   */
  function ShowLogs(logs: Log, args: seq<string>): (r: Option<LogsPage>)
    ensures r.None? <==> logs == []
    ensures r.Some? ==>
      var p := r.value.page;
      && r.value.totalPages == TotalPages(|logs|)
      && 1 <= p <= r.value.totalPages
      && r.value.entries == logs[(p - 1) * LogsPerPage..Min(p * LogsPerPage, |logs|)]
      && 1 <= |r.value.entries| <= LogsPerPage
  {
    if logs == [] then None
    else
      var page := SelectedPage(|logs|, args);
      Some(LogsPage(page, TotalPages(|logs|), PageEntries(logs, page)))
  }

  /** A page number that is missing, not numeric, below 1 or past the end shows page 1. */
  lemma OutOfRangeShowsFirstPage(logs: Log, args: seq<string>)
    requires !(1 <= RequestedPage(args) <= TotalPages(|logs|))
    ensures ShowLogs(logs, args) == ShowLogs(logs, [])
  {
  }

  lemma NonNumericShowsFirstPage(logs: Log, command: string, arg: string)
    requires !StartsNumeric(arg)
    ensures ShowLogs(logs, [command, arg]) == ShowLogs(logs, [command])
  {
    OutOfRangeShowsFirstPage(logs, [command, arg]);
  }

  /** Asking for an existing page by its decimal number shows that page. */
  lemma RequestedPageIsShown(logs: Log, command: string, page: int)
    requires 1 <= page <= TotalPages(|logs|)
    ensures ShowLogs(logs, [command, IntToString(page)]).Some?
    ensures ShowLogs(logs, [command, IntToString(page)]).value.page == page
  {
    CastOfIntToString(page);
  }

  /** Pages `page`, `page + 1`, ..., `last`, one after another. */
  function PagesFrom(logs: Log, page: int, last: int): Log
    decreases last - page
  {
    if page > last then [] else PageEntries(logs, page) + PagesFrom(logs, page + 1, last)
  }

  /** Reading every page in order gives back the whole log exactly once. */
  lemma PagesCoverLog(logs: Log)
    ensures PagesFrom(logs, 1, TotalPages(|logs|)) == logs
  {
    PagesFromSuffix(logs, 1);
    assert logs[0..] == logs;
  }

  lemma {:induction false} PagesFromSuffix(logs: Log, page: int)
    requires 1 <= page <= TotalPages(|logs|) + 1
    ensures PagesFrom(logs, page, TotalPages(|logs|)) == logs[Min((page - 1) * LogsPerPage, |logs|)..]
    decreases TotalPages(|logs|) - page
  {
    var n := |logs|;
    var last := TotalPages(n);
    if page > last {
      assert (page - 1) * LogsPerPage >= n;
    } else {
      PagesFromSuffix(logs, page + 1);
      var a := (page - 1) * LogsPerPage;
      var b := Min(page * LogsPerPage, n);
      assert a < n;
      assert PageEntries(logs, page) == logs[a..b];
      assert logs[a..b] + logs[b..] == logs[a..];
    }
  }

  // ---------------------------------------------------------------------
  // /mena remove and /mena info: guard order
  // ---------------------------------------------------------------------

  /** The message `handleRemove` sends. */
  datatype RemoveReply = RemoveUsage | RemoveNotFound | RemoveDone | RemoveFailed

  /**
   * `handleRemove`: the usage text without a player name; not-found, with
   * the registry untouched, when that player has no claim; otherwise the
   * claim is removed, which cannot then fail.
   */
  method RemoveCommand(manager: Managers.ProtectionManager, args: seq<string>,
                       now: int, logsEnabled: bool, maxLogs: int) returns (reply: RemoveReply)
    requires manager.Valid()
    modifies manager
    ensures manager.Valid()
    ensures reply != RemoveFailed
    ensures |args| < 2 <==> reply == RemoveUsage
    ensures reply == RemoveNotFound <==> |args| >= 2 && !old(manager.HasProtection(args[1]))
    ensures reply != RemoveDone ==>
      manager.protections == old(manager.protections) && manager.logs == old(manager.logs)
      && manager.saved == old(manager.saved)
    ensures reply == RemoveDone ==>
      var name := args[1];
      var c := old(manager.GetProtection(name)).value;
      && manager.protections == PhpArray.Unset(old(manager.protections), name)
      && !manager.HasProtection(name)
      && (forall other :: other != name ==> manager.GetProtection(other) == old(manager.GetProtection(other)))
      && manager.saved == manager.protections
      && manager.logs == Record(old(manager.logs), now, LogEntry(ProtectionRemoved, name, c.world, c.x, c.y, c.z),
                                logsEnabled, maxLogs)
  {
    if |args| < 2 {
      return RemoveUsage;
    }
    var name := args[1];
    if !manager.HasProtection(name) {
      return RemoveNotFound;
    }
    var removed := manager.RemoveProtection(name, now, logsEnabled, maxLogs);
    if removed {
      reply := RemoveDone;
    } else {
      reply := RemoveFailed;
    }
  }

  /** The message `handleInfo` sends. */
  datatype InfoReply = InfoUsage | InfoNotFound | InfoShown(claim: Claim)

  /** `handleInfo`: usage without a player name, not-found exactly when the player has no claim. */
  function InfoCommand(manager: Managers.ProtectionManager, args: seq<string>): (r: InfoReply)
    reads manager
    ensures r == InfoUsage <==> |args| < 2
    ensures r == InfoNotFound <==> |args| >= 2 && !manager.HasProtection(args[1])
    ensures r.InfoShown? ==> manager.GetProtection(args[1]) == Some(r.claim)
  {
    if |args| < 2 then InfoUsage
    else
      match manager.GetProtection(args[1])
      case None => InfoNotFound
      case Some(c) => InfoShown(c)
  }
}
