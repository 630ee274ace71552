/**
 * The two page handlers of src/api/log_html.rs, without their markup: the
 * file routing of `index`, and the menu of `log_content` (which groups are
 * shown, how they are numbered, prefixed and coloured, and which head the
 * page gets).
 */
module LogHtml {
  import opened Basics
  import opened Text
  import opened Auth
  import opened LogStore
  import opened LogList

  /** What `index` serves. */
  datatype IndexAnswer = Favicon | IndexPage | Redirect(location: string)

  /** `index`: the icon, the page, or a 302 to `/index.html` for any other file. */
  function Index(cfg: Config, username: string, password: Option<string>, fileName: string): (r: Reply<IndexAnswer>)
    ensures r == Challenge <==> UserAuthentication(cfg, username, password) == Denied
    ensures UserAuthentication(cfg, username, password) != Denied ==>
              && (r == Done(Favicon) <==> fileName == "favicon.ico")
              && (r == Done(IndexPage) <==> fileName == "index.html")
              && (r == Done(Redirect("/index.html")) <==> fileName != "favicon.ico" && fileName != "index.html")
  {
    if UserAuthentication(cfg, username, password) == Denied then Challenge
    else if fileName == "favicon.ico" then Done(Favicon)
    else if fileName != "index.html" then Done(Redirect("/index.html"))
    else Done(IndexPage)
  }

  /** The CSS dot of a menu item: `yellow-dot`, `green-dot` or `red-dot`. */
  datatype Dot = YellowDot | GreenDot | RedDot

  /** Reported again after being solved is yellow, solved is green, anything else red. */
  function StatusDot(status: int): (d: Dot)
    ensures d == YellowDot <==> status == -1
    ensures d == GreenDot <==> status == 1
    ensures d == RedDot <==> status != -1 && status != 1
  {
    match status
    case -1 => YellowDot
    case 1 => GreenDot
    case _ => RedDot
  }

  /** The `branch` and `game_id` fields of a reporter's version JSON. */
  datatype VersionInfo = VersionInfo(branch: string, gameId: int)

  /** The bracketed tag of a menu item, from the first reporter's version when it parses. */
  function VersionTag(info: Option<VersionInfo>): (tag: string)
    ensures info.None? ==> tag == "[Lobby]"
    ensures info.Some? && info.value.gameId == 0 && info.value.branch == "" ==> tag == "[Lobby]"
    ensures info.Some? && info.value.gameId == 0 && info.value.branch != "" ==> tag == "[Lobby(" + info.value.branch + ")]"
    ensures info.Some? && info.value.gameId != 0 ==> tag == "[Game" + IntToString(info.value.gameId) + "]"
  {
    if info.None? then "[Lobby]"
    else if info.value.gameId == 0 then
      var branchName := if info.value.branch == "" then "" else "(" + info.value.branch + ")";
      "[Lobby" + branchName + "]"
    else "[Game" + IntToString(info.value.gameId) + "]"
  }

  /** A tag names a game exactly when the version parsed with a non-zero game id. */
  lemma VersionTagNamesGame(info: Option<VersionInfo>)
    ensures StartsWith(VersionTag(info), "[Game") <==> info.Some? && info.value.gameId != 0
    ensures StartsWith(VersionTag(info), "[Lobby") <==> info.None? || info.value.gameId == 0
  {
    var tag := VersionTag(info);
    if info.Some? && info.value.gameId != 0 {
      assert tag[..5] == "[Game";
      assert tag[1] == 'G';
    } else if info.Some? && info.value.branch != "" {
      assert tag[..6] == "[Lobby";
      assert tag[1] == 'L';
    } else {
      assert tag == "[Lobby]";
      assert tag[..6] == "[Lobby";
      assert tag[1] == 'L';
    }
  }

  /** `lines[0]` of `message.split("\n")`: the text before the first newline. */
  function FirstLine(message: string): string {
    FirstPiece(message, '\n')
  }

  /**
   * The first line is what `split` puts first (never absent, so the code's
   * "empty" fallback is never used), a prefix of the message that holds no
   * newline and ends where the message or its first line ends.
   */
  lemma FirstLineSpec(message: string)
    ensures FirstLine(message) == Split(message, '\n')[0]
    ensures StartsWith(message, FirstLine(message))
    ensures '\n' !in FirstLine(message)
    ensures |FirstLine(message)| == |message| || message[|FirstLine(message)|] == '\n'
  {
    FirstPieceOfSplit(message, '\n');
    FirstPieceSpec(message, '\n');
  }

  /** Errors about a malformed protocol message, hidden unless asked for. */
  predicate IsProtocolError(firstLine: string) {
    StartsWith(firstLine, "LUA ERROR: type mismatch for") || StartsWith(firstLine, "LUA ERROR: unfinished bytes")
  }

  /** Whether the menu leaves a group out. */
  predicate Skipped(row: Row, showProtoErr: bool) {
    !showProtoErr && IsProtocolError(FirstLine(row.group.message))
  }

  /** The parsed version of the reporter the group lists first, if it still exists and its version parses. */
  function FirstReporterVersion(g: Group, reporters: map<int, Reporter>, parseVersion: string -> Option<VersionInfo>): Option<VersionInfo> {
    var id := ParseDecimal(FirstPiece(g.userList, ','));
    if id.Some? && id.value in reporters then parseVersion(reporters[id.value].version) else None
  }

  /**
   * One `<li>` of the menu, without its markup: the number, the group, its
   * dot, the first reporter's parsed version, the report count and the first
   * line of the message.
   */
  datatype MenuItem = MenuItem(number: int, hash: string, dot: Dot, version: Option<VersionInfo>, totalCount: int, firstLine: string)

  function ItemFor(row: Row, n: int, reporters: map<int, Reporter>, parseVersion: string -> Option<VersionInfo>): MenuItem {
    MenuItem(n, row.hash, StatusDot(row.group.status), FirstReporterVersion(row.group, reporters, parseVersion),
             row.group.totalCount, FirstLine(row.group.message))
  }

  /**
   * The menu of a list of groups, numbered from `start`: each shown group
   * takes the next number, and `item` builds its entry.
   */
  function Menu(logs: seq<Row>, start: int, item: (Row, int) -> MenuItem, showProtoErr: bool): seq<MenuItem> {
    if logs == [] then []
    else if Skipped(logs[0], showProtoErr) then Menu(logs[1..], start, item, showProtoErr)
    else [item(logs[0], start)] + Menu(logs[1..], start + 1, item, showProtoErr)
  }

  /** The entries `log_content` builds. */
  function Entries(reporters: map<int, Reporter>, parseVersion: string -> Option<VersionInfo>): (Row, int) -> MenuItem {
    (row, n) => ItemFor(row, n, reporters, parseVersion)
  }

  /** The groups the menu shows, in order. */
  function Kept(logs: seq<Row>, showProtoErr: bool): (kept: seq<Row>)
    ensures |kept| <= |logs|
    ensures forall x | x in kept :: x in logs && !Skipped(x, showProtoErr)
  {
    if logs == [] then []
    else if Skipped(logs[0], showProtoErr) then Kept(logs[1..], showProtoErr)
    else [logs[0]] + Kept(logs[1..], showProtoErr)
  }

  /** Every group that is not skipped is kept: the loop does not `continue` past it. */
  lemma {:induction false} KeptComplete(logs: seq<Row>, showProtoErr: bool)
    ensures forall x | x in logs && !Skipped(x, showProtoErr) :: x in Kept(logs, showProtoErr)
  {
    if logs != [] {
      KeptComplete(logs[1..], showProtoErr);
      assert forall x | x in logs :: x == logs[0] || x in logs[1..];
    }
  }

  /** The groups kept from two lists one after the other are those kept from each, in the same order. */
  lemma {:induction false} KeptAppend(a: seq<Row>, b: seq<Row>, showProtoErr: bool)
    ensures Kept(a + b, showProtoErr) == Kept(a, showProtoErr) + Kept(b, showProtoErr)
  {
    if a != [] {
      assert (a + b)[0] == a[0];
      assert (a + b)[1..] == a[1..] + b;
      KeptAppend(a[1..], b, showProtoErr);
    } else {
      assert a + b == b;
    }
  }

  /**
   * The menu keeps the order of the query: of two groups that are both shown,
   * the earlier one comes first.
   */
  lemma KeptInOrder(logs: seq<Row>, i: nat, j: nat, showProtoErr: bool)
    requires i < j < |logs|
    requires !Skipped(logs[i], showProtoErr) && !Skipped(logs[j], showProtoErr)
    ensures exists p, q :: 0 <= p < q < |Kept(logs, showProtoErr)| &&
                           Kept(logs, showProtoErr)[p] == logs[i] && Kept(logs, showProtoErr)[q] == logs[j]
  {
    var front, back := logs[..j], logs[j..];
    var kf, kb := Kept(front, showProtoErr), Kept(back, showProtoErr);
    assert Kept(logs, showProtoErr) == kf + kb by {
      assert logs == front + back;
      KeptAppend(front, back, showProtoErr);
    }
    assert logs[i] in kf by {
      assert front[i] == logs[i];
      KeptComplete(front, showProtoErr);
    }
    assert kb != [] && kb[0] == logs[j] by {
      assert back[0] == logs[j];
    }
    BeforeAcrossAppend(kf, kb, logs[i], logs[j]);
  }

  /** The menu lists the kept groups in order, numbered `start`, `start + 1`, ... with no gaps. */
  lemma {:induction false} MenuNumbersKeptGroups(logs: seq<Row>, start: int, item: (Row, int) -> MenuItem, showProtoErr: bool)
    ensures var menu := Menu(logs, start, item, showProtoErr);
            var kept := Kept(logs, showProtoErr);
            && |menu| == |kept|
            && forall k | 0 <= k < |menu| :: menu[k] == item(kept[k], start + k)
  {
    if logs != [] {
      if Skipped(logs[0], showProtoErr) {
        MenuNumbersKeptGroups(logs[1..], start, item, showProtoErr);
      } else {
        MenuNumbersKeptGroups(logs[1..], start + 1, item, showProtoErr);
        var menu, kept := Menu(logs, start, item, showProtoErr), Kept(logs, showProtoErr);
        var rest, keptRest := Menu(logs[1..], start + 1, item, showProtoErr), Kept(logs[1..], showProtoErr);
        assert menu == [item(logs[0], start)] + rest;
        assert kept == [logs[0]] + keptRest;
        forall k | 1 <= k < |menu| ensures menu[k] == item(kept[k], start + k) {
          assert menu[k] == rest[k - 1] && kept[k] == keptRest[k - 1];
        }
      }
    }
  }

  /** With `show_proto_err` in the query, every group is shown. */
  lemma {:induction false} KeptAllWhenShown(logs: seq<Row>)
    ensures Kept(logs, true) == logs
  {
    if logs != [] {
      KeptAllWhenShown(logs[1..]);
      assert [logs[0]] + logs[1..] == logs;
    }
  }

  /** One turn of the menu loop keeps "items so far + menu of the rest == whole menu". */
  lemma MenuAdvance(logs: seq<Row>, i: nat, items: seq<MenuItem>, count: int,
                    reporters: map<int, Reporter>, parseVersion: string -> Option<VersionInfo>, showProtoErr: bool)
    requires i < |logs|
    requires items + Menu(logs[i..], count + 1, Entries(reporters, parseVersion), showProtoErr) ==
             Menu(logs, 1, Entries(reporters, parseVersion), showProtoErr)
    ensures var whole := Menu(logs, 1, Entries(reporters, parseVersion), showProtoErr);
            if Skipped(logs[i], showProtoErr) then
              items + Menu(logs[i + 1..], count + 1, Entries(reporters, parseVersion), showProtoErr) == whole
            else
              items + [ItemFor(logs[i], count + 1, reporters, parseVersion)]
                + Menu(logs[i + 1..], count + 2, Entries(reporters, parseVersion), showProtoErr) == whole
  {
    assert logs[i..][1..] == logs[i + 1..];
    var rest := Menu(logs[i + 1..], count + 2, Entries(reporters, parseVersion), showProtoErr);
    var e := ItemFor(logs[i], count + 1, reporters, parseVersion);
    assert items + [e] + rest == items + ([e] + rest);
  }

  /**
   * One pass of the menu loop: the entry of `log`, numbered after the `count`
   * entries so far, or nothing when the group is skipped.
   */
  method MenuEntry(log: Row, count: int, reporters: map<int, Reporter>,
                   parseVersion: string -> Option<VersionInfo>, showProtoErr: bool)
    returns (entry: Option<MenuItem>)
    ensures entry.None? <==> Skipped(log, showProtoErr)
    ensures entry.Some? ==> entry.value == ItemFor(log, count + 1, reporters, parseVersion)
  {
    var firstLine := FirstLine(log.group.message);
    var version := FirstReporterVersion(log.group, reporters, parseVersion);
    if !showProtoErr && IsProtocolError(firstLine) {
      return None;
    }
    entry := Some(MenuItem(count + 1, log.hash, StatusDot(log.group.status), version, log.group.totalCount, firstLine));
  }

  /**
   * The menu loop of `log_content`: a skipped group does not use a number up,
   * so the shown items are numbered without gaps.
   */
  method BuildMenu(logs: seq<Row>, reporters: map<int, Reporter>, parseVersion: string -> Option<VersionInfo>, showProtoErr: bool)
    returns (items: seq<MenuItem>)
    ensures items == Menu(logs, 1, Entries(reporters, parseVersion), showProtoErr)
  {
    ghost var whole := Menu(logs, 1, Entries(reporters, parseVersion), showProtoErr);
    items := [];
    var count := 0;
    var i := 0;
    while i < |logs|
      invariant 0 <= i <= |logs|
      invariant items + Menu(logs[i..], count + 1, Entries(reporters, parseVersion), showProtoErr) == whole
    {
      MenuAdvance(logs, i, items, count, reporters, parseVersion, showProtoErr);
      var entry := MenuEntry(logs[i], count, reporters, parseVersion, showProtoErr);
      if entry.Some? {
        items := items + [entry.value];
        count := count + 1;
      }
      i := i + 1;
    }
    assert items + [] == items;
  }

  /** The head of the content page: nothing for the admin, else a remove-all button for the type. */
  datatype Head = NoHead | RemoveAllButton(logType: string)

  datatype ContentPage = EmptyList | MenuPage(items: seq<MenuItem>, head: Head)

  /**
   * `log_content`: the menu of the groups of one type, or the empty-list page
   * when there are none.
   */
  method LogContent(cfg: Config, username: string, password: Option<string>, logType: string, queryString: string,
                    groups: seq<Row>, reporters: map<int, Reporter>, parseVersion: string -> Option<VersionInfo>)
    returns (r: Reply<ContentPage>)
    ensures r == Challenge <==> UserAuthentication(cfg, username, password) == Denied
    ensures !r.Forbidden?
    ensures r.Done? && r.body == EmptyList <==>
              UserAuthentication(cfg, username, password) != Denied && OfLogType(groups, logType) == []
    ensures r.Done? && r.body.MenuPage? ==>
              && r.body.items == Menu(OfLogType(groups, logType), 1, Entries(reporters, parseVersion), Contains(queryString, "show_proto_err"))
              && (r.body.head == NoHead <==> UserAuthentication(cfg, username, password) == Granted(true))
              && (r.body.head != NoHead ==> r.body.head == RemoveAllButton(logType))
  {
    var auth := UserAuthentication(cfg, username, password);
    if auth == Denied {
      return Challenge;
    }
    var showProtoErr := Contains(queryString, "show_proto_err");
    var logs := OfLogType(groups, logType);
    if logs == [] {
      return Done(EmptyList);
    }
    var items := BuildMenu(logs, reporters, parseVersion, showProtoErr);
    var head := if auth.isAdmin then NoHead else RemoveAllButton(logType);
    r := Done(MenuPage(items, head));
  }
}
