/**
 * The two tables behind the error-log handlers of src/api/log.rs, kept in
 * memory: `upload_log` (one row per group of equal reports, keyed by its hash)
 * and `upload_user` (one row per saved reporter, keyed by an increasing id).
 *
 * A group's `user_list` column is kept as the comma-joined text the code
 * stores; `Tokens` splits it the way the handlers do.
 */
module LogStore {
  import opened Basics
  import opened Text
  import opened Auth
  import opened LogKey

  /** A row of `upload_log`, without its key. Status: 0 open, 1 solved, -1 reported again after being solved. */
  datatype Group = Group(
    logType: string,
    message: string,
    userList: string,
    totalCount: int,
    status: int,
    firstTime: int,
    lastTime: int,
    resolutionTime: int)

  /** A row of `upload_user`, without its id. */
  datatype Reporter = Reporter(
    package: string,
    navUrl: string,
    version: string,
    user: string,
    logs: string,
    ip: string,
    time: int)

  /** The JSON body of an upload. */
  datatype Submission = Submission(
    logType: string,
    message: string,
    user: string,
    package: string,
    navUrl: string,
    version: string,
    logs: string)

  /** A reporter as listed in a group's detail. */
  datatype Brief = Brief(id: int, package: string, navUrl: string, version: string, user: string, ip: string, time: int)

  /** The JSON of `api_log_content` for a group that exists. */
  datatype DetailView = DetailView(
    hash: string,
    users: seq<Brief>,
    firstTime: int,
    lastTime: int,
    totalCount: int,
    status: int,
    resolutionTime: int,
    message: string,
    canRemove: bool)

  /** `api_log_content` answers a found group, or the plain text `no file: <hash>`. */
  datatype DetailResult = Found(view: DetailView) | NoFile(hash: string)

  /** The JSON of `api_user_log`. */
  datatype UserLogResponse = UserLogResponse(id: int, logs: string)

  /** Past this many listed reporters, a group stops saving new ones. */
  const ReporterCap: int := 100

  /** `user_list.split(",")` */
  function Tokens(g: Group): seq<string> {
    Split(g.userList, ',')
  }

  /** The id one token denotes when compared with the integer id column: none unless it is a decimal literal. */
  function DecimalId(t: string): (ids: set<int>)
    ensures ParseDecimal(t).Some? ==> ids == {ParseDecimal(t).value}
    ensures ParseDecimal(t).None? ==> ids == {}
  {
    if ParseDecimal(t).Some? then {ParseDecimal(t).value} else {}
  }

  /** The id `parse::<i32>()` reads from one token, if any. */
  function I32Id(t: string): (ids: set<int>)
    ensures ParseI32(t).Some? ==> ids == {ParseI32(t).value}
    ensures ParseI32(t).None? ==> ids == {}
  {
    if ParseI32(t).Some? then {ParseI32(t).value} else {}
  }

  /** Deleting two sets of ids one after the other deletes their union. */
  lemma MinusUnion(m: map<int, Reporter>, a: set<int>, b: set<int>)
    ensures m - a - b == m - (a + b)
  {
  }

  lemma MinusNothing(m: map<int, Reporter>)
    ensures m - {} == m
  {
  }

  lemma MinusAbsent(m: map<int, Reporter>, id: int)
    requires id !in m
    ensures m - {id} == m
  {
  }

  /** One more token deleted: the ids of the longer prefix are gone. */
  lemma DecimalDeleteStep(m: map<int, Reporter>, tokens: seq<string>, i: nat, before: map<int, Reporter>, after: map<int, Reporter>)
    requires i < |tokens|
    requires before == m - RefIdsOf(tokens[..i])
    requires after == before - DecimalId(tokens[i])
    ensures after == m - RefIdsOf(tokens[..i + 1])
  {
    MinusUnion(m, RefIdsOf(tokens[..i]), DecimalId(tokens[i]));
    RefIdsOfAppend(tokens[..i], tokens[i]);
    assert tokens[..i + 1] == tokens[..i] + [tokens[i]];
  }

  /** One more token deleted by `clear`: the i32 ids of the longer prefix are gone. */
  lemma I32DeleteStep(m: map<int, Reporter>, tokens: seq<string>, i: nat, before: map<int, Reporter>, after: map<int, Reporter>)
    requires i < |tokens|
    requires before == m - I32IdsOf(tokens[..i])
    requires after == before - I32Id(tokens[i])
    ensures after == m - I32IdsOf(tokens[..i + 1])
  {
    MinusUnion(m, I32IdsOf(tokens[..i]), I32Id(tokens[i]));
    I32IdsOfAppend(tokens[..i], tokens[i]);
    assert tokens[..i + 1] == tokens[..i] + [tokens[i]];
  }

  /** The reporter ids a list of tokens denotes. */
  function RefIdsOf(tokens: seq<string>): set<int> {
    if tokens == [] then {} else RefIdsOf(tokens[..|tokens| - 1]) + DecimalId(tokens[|tokens| - 1])
  }

  /** The ids `clear` deletes for a list of tokens. */
  function I32IdsOf(tokens: seq<string>): set<int> {
    if tokens == [] then {} else I32IdsOf(tokens[..|tokens| - 1]) + I32Id(tokens[|tokens| - 1])
  }

  /** An id is named by a list exactly when some token of the list denotes it. */
  lemma {:induction false} RefIdsOfMember(tokens: seq<string>, id: int)
    ensures id in RefIdsOf(tokens) <==> exists i | 0 <= i < |tokens| :: ParseDecimal(tokens[i]) == Some(id)
  {
    if tokens != [] {
      var init := tokens[..|tokens| - 1];
      RefIdsOfMember(init, id);
      if id in RefIdsOf(init) {
        var i :| 0 <= i < |init| && ParseDecimal(init[i]) == Some(id);
        assert tokens[i] == init[i];
      }
      if exists i | 0 <= i < |tokens| :: ParseDecimal(tokens[i]) == Some(id) {
        var i :| 0 <= i < |tokens| && ParseDecimal(tokens[i]) == Some(id);
        if i < |init| {
          assert tokens[i] == init[i];
        }
      }
    }
  }

  function RefIds(g: Group): set<int> {
    RefIdsOf(Tokens(g))
  }

  /** Whether an upload saves a reporter row: always for a new group, else only below the cap. */
  predicate SavesReporter(groups: map<string, Group>, key: string) {
    key !in groups || |Tokens(groups[key])| <= ReporterCap
  }

  /** `can_remove`: only a solved group, and only for the admin. */
  function CanRemove(status: int, isAdmin: bool): (b: bool)
    ensures b <==> status == 1 && isAdmin
  {
    if status == 1 then isAdmin else false
  }

  function BriefOf(id: int, rep: Reporter): Brief {
    Brief(id, rep.package, rep.navUrl, rep.version, rep.user, rep.ip, rep.time)
  }

  /** The reporters a list of tokens resolves to, in list order, skipping the ones that are gone. */
  function Resolve(tokens: seq<string>, reporters: map<int, Reporter>): seq<Brief> {
    if tokens == [] then []
    else
      var last := ParseDecimal(tokens[|tokens| - 1]);
      Resolve(tokens[..|tokens| - 1], reporters) +
        if last.Some? && last.value in reporters then [BriefOf(last.value, reporters[last.value])] else []
  }

  /** Everything a resolved list shows is a live reporter named in the list, and no more entries than tokens. */
  lemma {:induction false} ResolveSound(tokens: seq<string>, reporters: map<int, Reporter>)
    ensures |Resolve(tokens, reporters)| <= |tokens|
    ensures forall b | b in Resolve(tokens, reporters) ::
              b.id in reporters && b == BriefOf(b.id, reporters[b.id]) && b.id in RefIdsOf(tokens)
  {
    if tokens != [] {
      var init := tokens[..|tokens| - 1];
      ResolveSound(init, reporters);
      assert RefIdsOf(init) <= RefIdsOf(tokens);
    }
  }

  /** When every token names a live reporter, the list shows all of them, in order. */
  lemma {:induction false} ResolveComplete(tokens: seq<string>, reporters: map<int, Reporter>)
    requires forall i | 0 <= i < |tokens| :: ParseDecimal(tokens[i]).Some? && ParseDecimal(tokens[i]).value in reporters
    ensures |Resolve(tokens, reporters)| == |tokens|
    ensures forall i | 0 <= i < |tokens| :: Resolve(tokens, reporters)[i].id == ParseDecimal(tokens[i]).value
  {
    if tokens != [] {
      var init := tokens[..|tokens| - 1];
      assert forall i | 0 <= i < |init| :: init[i] == tokens[i];
      ResolveComplete(init, reporters);
    }
  }

  /** Adding one token adds at most the id it denotes. */
  lemma RefIdsOfAppend(tokens: seq<string>, t: string)
    ensures RefIdsOf(tokens + [t]) == RefIdsOf(tokens) + DecimalId(t)
  {
    assert (tokens + [t])[..|tokens|] == tokens;
  }

  /** Adding one token adds at most the id `parse::<i32>` reads from it. */
  lemma I32IdsOfAppend(tokens: seq<string>, t: string)
    ensures I32IdsOf(tokens + [t]) == I32IdsOf(tokens) + I32Id(t)
  {
    assert (tokens + [t])[..|tokens|] == tokens;
  }

  /** For digit-only tokens, what `clear` deletes is a part of what the list names. */
  lemma {:induction false} I32IdsWithinRefIds(tokens: seq<string>)
    requires forall i | 0 <= i < |tokens| :: ParseDecimal(tokens[i]).Some?
    ensures I32IdsOf(tokens) <= RefIdsOf(tokens)
  {
    if tokens != [] {
      var init := tokens[..|tokens| - 1];
      assert forall i | 0 <= i < |init| :: init[i] == tokens[i];
      I32IdsWithinRefIds(init);
    }
  }

  /** With every listed id in the 32-bit range, `clear` deletes exactly the listed reporters. */
  lemma {:induction false} I32IdsCoverRefIds(tokens: seq<string>)
    requires forall i | 0 <= i < |tokens| :: ParseDecimal(tokens[i]).Some? && ParseDecimal(tokens[i]).value <= I32Max
    ensures I32IdsOf(tokens) == RefIdsOf(tokens)
  {
    if tokens != [] {
      var init := tokens[..|tokens| - 1];
      assert forall i | 0 <= i < |init| :: init[i] == tokens[i];
      I32IdsCoverRefIds(init);
    }
  }

  /** The ids deleted by clearing the groups `hs`. */
  function ClearedIds(groups: map<string, Group>, hs: set<string>): set<int> {
    set h, id | h in hs && h in groups && id in I32IdsOf(Tokens(groups[h])) :: id
  }

  /** A group as the store keeps it: 1 to 101 digit-only tokens, no more than its report count. */
  predicate GroupOk(g: Group) {
    && 1 <= |Tokens(g)| <= ReporterCap + 1
    && |Tokens(g)| <= g.totalCount
    && -1 <= g.status <= 1
    && forall i | 0 <= i < |Tokens(g)| :: ParseDecimal(Tokens(g)[i]).Some?
  }

  /** Reporter ids are handed out from 1 upwards; every stored one is below the next. */
  ghost predicate IdsBelow(reporters: map<int, Reporter>, nextId: int) {
    nextId >= 1 && forall id | id in reporters :: 1 <= id < nextId
  }

  /** Every group is well formed and sits at the key computed from its message and type. */
  ghost predicate Filed(digest: string -> string, groups: map<string, Group>) {
    forall h | h in groups :: GroupOk(groups[h]) && h == GroupKey(digest, groups[h].message, groups[h].logType)
  }

  /** Every group names only stored reporters. */
  ghost predicate LiveRefs(groups: map<string, Group>, reporters: map<int, Reporter>) {
    forall h | h in groups :: RefIds(groups[h]) <= reporters.Keys
  }

  /** No reporter is named by two groups. */
  ghost predicate DisjointRefs(groups: map<string, Group>) {
    forall h1, h2 | h1 in groups && h2 in groups && h1 != h2 :: RefIds(groups[h1]) !! RefIds(groups[h2])
  }

  /** The store's invariant. */
  ghost predicate Inv(digest: string -> string, groups: map<string, Group>, reporters: map<int, Reporter>, nextId: int) {
    IdsBelow(reporters, nextId) && Filed(digest, groups) && LiveRefs(groups, reporters) && DisjointRefs(groups)
  }

  /** Saving a reporter under the next id keeps the invariant, and no group names that id yet. */
  lemma AddReporterKeepsInv(digest: string -> string, groups: map<string, Group>, reporters: map<int, Reporter>, nextId: int, rep: Reporter)
    requires Inv(digest, groups, reporters, nextId)
    ensures Inv(digest, groups, reporters[nextId := rep], nextId + 1)
    ensures forall h | h in groups :: nextId !in RefIds(groups[h])
  {
  }

  /** Filing a well-formed group at its key keeps the invariant when it shares no reporter with the others. */
  lemma PutGroupKeepsInv(digest: string -> string, groups: map<string, Group>, reporters: map<int, Reporter>, nextId: int, key: string, g: Group)
    requires Inv(digest, groups, reporters, nextId)
    requires GroupOk(g) && key == GroupKey(digest, g.message, g.logType)
    requires RefIds(g) <= reporters.Keys
    requires forall h | h in groups && h != key :: RefIds(groups[h]) !! RefIds(g)
    ensures Inv(digest, groups[key := g], reporters, nextId)
  {
  }

  /** The groups of one type. */
  function OfType(groups: map<string, Group>, logType: string): set<string> {
    set h | h in groups && groups[h].logType == logType
  }

  /** The groups of every other type. */
  function OtherTypes(groups: map<string, Group>, logType: string): map<string, Group> {
    map h | h in groups && groups[h].logType != logType :: groups[h]
  }

  /** Clearing a type keeps the invariant: no surviving group names a deleted reporter. */
  lemma ClearKeepsInv(digest: string -> string, groups: map<string, Group>, reporters: map<int, Reporter>, nextId: int, logType: string)
    requires Inv(digest, groups, reporters, nextId)
    ensures Inv(digest, OtherTypes(groups, logType), reporters - ClearedIds(groups, OfType(groups, logType)), nextId)
  {
    var cleared := ClearedIds(groups, OfType(groups, logType));
    var kept := OtherTypes(groups, logType);
    forall h | h in kept ensures RefIds(kept[h]) <= (reporters - cleared).Keys {
      forall id | id in RefIds(groups[h]) ensures id !in cleared {
        forall h' | h' in OfType(groups, logType) ensures id !in I32IdsOf(Tokens(groups[h'])) {
          I32IdsWithinRefIds(Tokens(groups[h']));
        }
      }
    }
  }

  /** Removing a group and the reporters it names keeps the invariant. */
  lemma RemoveKeepsInv(digest: string -> string, groups: map<string, Group>, reporters: map<int, Reporter>, nextId: int, hash: string)
    requires Inv(digest, groups, reporters, nextId)
    requires hash in groups
    ensures Inv(digest, groups - {hash}, reporters - RefIds(groups[hash]), nextId)
  {
    forall h | h in groups - {hash} ensures RefIds(groups[h]) <= (reporters - RefIds(groups[hash])).Keys {
      assert RefIds(groups[h]) !! RefIds(groups[hash]);
    }
  }

  /**
   * Bumping a group keeps the invariant; its list gains exactly the freshly
   * saved id, if one was saved.
   */
  lemma BumpKeepsInv(digest: string -> string, groups: map<string, Group>, reporters: map<int, Reporter>, nextId: int,
                     key: string, added: Option<nat>, g': Group)
    requires Inv(digest, groups, reporters, nextId) && key in groups
    requires added.Some? ==> added.value in reporters && |Tokens(groups[key])| <= ReporterCap
    requires added.Some? ==> forall h | h in groups :: added.value !in RefIds(groups[h])
    requires var g := groups[key];
             && g'.logType == g.logType && g'.message == g.message
             && g'.totalCount == g.totalCount + 1 && -1 <= g'.status <= 1
             && g'.userList == Join(if added.Some? then Tokens(g) + [NatToString(added.value)] else Tokens(g), ',')
    ensures Tokens(g') == Tokens(groups[key]) + (if added.Some? then [NatToString(added.value)] else [])
    ensures Inv(digest, groups[key := g'], reporters, nextId)
  {
    var g := groups[key];
    var ts := Tokens(g);
    if added.Some? {
      var t := NatToString(added.value);
      var us := ts + [t];
      DigitsHaveNoComma(t);
      ParseDecimalRoundTrip(added.value);
      RefIdsOfAppend(ts, t);
      forall i | 0 <= i < |us| ensures ',' !in us[i] && ParseDecimal(us[i]).Some? {
        if i < |ts| { assert us[i] == ts[i]; }
      }
      SplitJoin(us, ',');
      assert RefIds(g') == RefIds(g) + {added.value};
    } else {
      assert ts + [] == ts;
      JoinSplit(g.userList, ',');
    }
    PutGroupKeepsInv(digest, groups, reporters, nextId, key, g');
  }

  /** Creating a group that lists only the freshly saved id keeps the invariant. */
  lemma NewGroupKeepsInv(digest: string -> string, groups: map<string, Group>, reporters: map<int, Reporter>, nextId: int,
                         key: string, added: nat, g': Group)
    requires Inv(digest, groups, reporters, nextId) && key !in groups
    requires added in reporters && forall h | h in groups :: added !in RefIds(groups[h])
    requires key == GroupKey(digest, g'.message, g'.logType)
    requires g'.userList == Join([NatToString(added)], ',') && g'.totalCount == 1 && g'.status == 0
    ensures Tokens(g') == [NatToString(added)]
    ensures Inv(digest, groups[key := g'], reporters, nextId)
  {
    var t := NatToString(added);
    DigitsHaveNoComma(t);
    SplitNoSep(t, ',');
    ParseDecimalRoundTrip(added);
    RefIdsOfAppend([], t);
    assert [] + [t] == [t];
    PutGroupKeepsInv(digest, groups, reporters, nextId, key, g');
  }

  class Store {
    /** MD5 in hex, not modelled: any function of the text. */
    const digest: string -> string
    /** The configured credentials of `AppState`. */
    const config: Config

    var groups: map<string, Group>
    var reporters: map<int, Reporter>
    /** The id the next saved reporter receives. */
    var nextId: int

    /** The store's invariant, `Inv` over this store's state. */
    ghost predicate Valid()
      reads this
    {
      Inv(digest, groups, reporters, nextId)
    }

    constructor (digest: string -> string, config: Config)
      ensures Valid()
      ensures this.digest == digest && this.config == config
      ensures groups == map[] && reporters == map[] && nextId == 1
    {
      this.digest := digest;
      this.config := config;
      groups := map[];
      reporters := map[];
      nextId := 1;
    }

    /**
     * `api_upload_log`. A report whose type starts with "error" is filed under
     * its key: a reporter row is saved unless the group already lists more than
     * `ReporterCap` reporters, then the group is created or bumped. Every
     * report is answered with the ok body.
     */
    method Upload(sub: Submission, ip: Option<string>, now: int) returns (r: Reply<()>)
      requires Valid()
      modifies this
      ensures Valid()
      ensures r == Done(())
      ensures !StartsWith(sub.logType, "error") ==>
                groups == old(groups) && reporters == old(reporters) && nextId == old(nextId)
      ensures StartsWith(sub.logType, "error") ==>
                var key := GroupKey(digest, sub.message, sub.logType);
                var saved := SavesReporter(old(groups), key);
                var newId := NatToString(old(nextId));
                && key in groups
                && groups == old(groups)[key := groups[key]]
                && nextId == (if saved then old(nextId) + 1 else old(nextId))
                && reporters == (if saved then old(reporters)[old(nextId) := Reporter(sub.package, sub.navUrl, sub.version, sub.user, sub.logs, OrDefault(ip, "unknown"), now)]
                                 else old(reporters))
                && (key !in old(groups) ==>
                      groups[key] == Group(sub.logType, sub.message, newId, 1, 0, now, now, now))
                && (key in old(groups) ==>
                      var g, g' := old(groups)[key], groups[key];
                      && g'.totalCount == g.totalCount + 1
                      && g'.lastTime == now
                      && g'.status == (if g.status == 0 then 0 else -1)
                      && Tokens(g') == Tokens(g) + (if saved then [newId] else [])
                      && g'.logType == g.logType && g'.message == g.message
                      && g'.firstTime == g.firstTime && g'.resolutionTime == g.resolutionTime)
    {
      r := Done(());
      if !StartsWith(sub.logType, "error") {
        return;
      }
      var normalized := Normalize(sub.message);
      var key := digest(normalized + "-" + sub.logType);

      var existing: Option<Group> := if key in groups then Some(groups[key]) else None;

      var saveUser := true;
      if existing.Some? && |Split(existing.value.userList, ',')| > ReporterCap {
        saveUser := false;
      }

      var userId: Option<nat> := None;
      if saveUser {
        var addr := if ip.Some? then ip.value else "unknown";
        var id := SaveReporter(Reporter(sub.package, sub.navUrl, sub.version, sub.user, sub.logs, addr, now));
        userId := Some(id);
      }

      if existing.Some? {
        BumpGroup(key, userId, now);
      } else {
        CreateGroup(key, sub, userId.value, now);
      }
    }

    /** Saves a reporter row under the next id, which no group lists yet. */
    method SaveReporter(rep: Reporter) returns (id: nat)
      requires Valid()
      modifies this
      ensures Valid()
      ensures id == old(nextId) && nextId == old(nextId) + 1
      ensures reporters == old(reporters)[id := rep] && groups == old(groups)
      ensures forall h | h in groups :: id !in RefIds(groups[h])
    {
      AddReporterKeepsInv(digest, groups, reporters, nextId, rep);
      reporters := reporters[nextId := rep];
      id := nextId;
      nextId := nextId + 1;
    }

    /**
     * The update branch of `api_upload_log`: one more report at `now`, a
     * solved group marked as reported again, and the saved id, if any,
     * appended to the reporter list.
     */
    method BumpGroup(key: string, added: Option<nat>, now: int)
      requires Valid() && key in groups
      requires added.Some? ==> added.value in reporters && |Tokens(groups[key])| <= ReporterCap
      requires added.Some? ==> forall h | h in groups :: added.value !in RefIds(groups[h])
      modifies this
      ensures Valid()
      ensures reporters == old(reporters) && nextId == old(nextId)
      ensures key in groups && groups == old(groups)[key := groups[key]]
      ensures var g, g' := old(groups)[key], groups[key];
              && g'.totalCount == g.totalCount + 1
              && g'.lastTime == now
              && g'.status == (if g.status == 0 then 0 else -1)
              && Tokens(g') == Tokens(g) + (if added.Some? then [NatToString(added.value)] else [])
              && g'.logType == g.logType && g'.message == g.message
              && g'.firstTime == g.firstTime && g'.resolutionTime == g.resolutionTime
    {
      var g := groups[key];
      var totalCount := g.totalCount + 1;
      var userList := Split(g.userList, ',');
      if added.Some? {
        userList := userList + [NatToString(added.value)];
      }
      var status := if g.status == 0 then 0 else -1;
      var bumped := g.(totalCount := totalCount, lastTime := now, userList := Join(userList, ','), status := status);
      BumpKeepsInv(digest, groups, reporters, nextId, key, added, bumped);
      groups := groups[key := bumped];
    }

    /** The insert branch of `api_upload_log`: a new group listing the one saved reporter. */
    method CreateGroup(key: string, sub: Submission, added: nat, now: int)
      requires Valid() && key !in groups
      requires key == GroupKey(digest, sub.message, sub.logType)
      requires added in reporters && forall h | h in groups :: added !in RefIds(groups[h])
      modifies this
      ensures Valid()
      ensures reporters == old(reporters) && nextId == old(nextId)
      ensures groups == old(groups)[key := Group(sub.logType, sub.message, NatToString(added), 1, 0, now, now, now)]
    {
      var userList: seq<string> := [];
      userList := userList + [NatToString(added)];
      var created := Group(sub.logType, sub.message, Join(userList, ','), 1, 0, now, now, now);
      NewGroupKeepsInv(digest, groups, reporters, nextId, key, added, created);
      assert Join([NatToString(added)], ',') == NatToString(added);
      groups := groups[key := created];
    }

    /**
     * `api_log_complete`: any authenticated caller marks a group solved and
     * stamps the resolution time; an unknown hash changes nothing.
     */
    method Complete(username: string, password: Option<string>, hash: string, now: int) returns (r: Reply<()>)
      requires Valid()
      modifies this
      ensures Valid()
      ensures reporters == old(reporters) && nextId == old(nextId)
      ensures UserAuthentication(config, username, password) == Denied ==> r == Challenge && groups == old(groups)
      ensures UserAuthentication(config, username, password) != Denied ==>
                && r == Done(())
                && groups == if hash in old(groups) then old(groups)[hash := old(groups)[hash].(status := 1, resolutionTime := now)]
                             else old(groups)
    {
      if UserAuthentication(config, username, password) == Denied {
        return Challenge;
      }
      if hash in groups {
        var g := groups[hash];
        var solved := g.(status := 1, resolutionTime := now);
        PutGroupKeepsInv(digest, groups, reporters, nextId, hash, solved);
        groups := groups[hash := solved];
      }
      r := Done(());
    }

    /**
     * `api_log_remove`: the admin deletes the reporters a group lists, then the
     * group; anyone else is refused and nothing is deleted.
     */
    method Remove(username: string, password: Option<string>, hash: string) returns (r: Reply<()>)
      requires Valid()
      modifies this
      ensures Valid()
      ensures nextId == old(nextId)
      ensures UserAuthentication(config, username, password) == Denied ==>
                r == Challenge && groups == old(groups) && reporters == old(reporters)
      ensures UserAuthentication(config, username, password) == Granted(false) ==>
                r == Forbidden && groups == old(groups) && reporters == old(reporters)
      ensures UserAuthentication(config, username, password) == Granted(true) ==>
                && r == Done(())
                && groups == old(groups) - {hash}
                && reporters == old(reporters) - (if hash in old(groups) then RefIds(old(groups)[hash]) else {})
    {
      var auth := UserAuthentication(config, username, password);
      if auth == Denied {
        return Challenge;
      }
      if !auth.isAdmin {
        return Forbidden;
      }
      if hash in groups {
        DeleteDecimalIds(Tokens(groups[hash]));
        RemoveKeepsInv(digest, groups, old(reporters), nextId, hash);
        groups := groups - {hash};
      }
      r := Done(());
    }

    /**
     * `api_clear_log`: the admin deletes every reporter id that parses as an
     * i32 in the lists of the groups of one type, then those groups; groups of
     * other types are untouched. Anyone else is refused.
     */
    method Clear(username: string, password: Option<string>, logType: string) returns (r: Reply<()>)
      requires Valid()
      modifies this
      ensures Valid()
      ensures nextId == old(nextId)
      ensures UserAuthentication(config, username, password) == Denied ==>
                r == Challenge && groups == old(groups) && reporters == old(reporters)
      ensures UserAuthentication(config, username, password) == Granted(false) ==>
                r == Forbidden && groups == old(groups) && reporters == old(reporters)
      ensures UserAuthentication(config, username, password) == Granted(true) ==>
                && r == Done(())
                && groups == OtherTypes(old(groups), logType)
                && reporters == old(reporters) - ClearedIds(old(groups), OfType(old(groups), logType))
    {
      var auth := UserAuthentication(config, username, password);
      if auth == Denied {
        return Challenge;
      }
      if !auth.isAdmin {
        return Forbidden;
      }
      DeleteClearedIds(OfType(groups, logType));
      ClearKeepsInv(digest, groups, old(reporters), nextId, logType);
      groups := OtherTypes(groups, logType);
      r := Done(());
    }

    /** Deletes, one token at a time, the reporter each token finds by id comparison. */
    method DeleteDecimalIds(tokens: seq<string>)
      modifies this
      ensures groups == old(groups) && nextId == old(nextId)
      ensures reporters == old(reporters) - RefIdsOf(tokens)
    {
      var i := 0;
      while i < |tokens|
        invariant 0 <= i <= |tokens|
        invariant groups == old(groups) && nextId == old(nextId)
        invariant reporters == old(reporters) - RefIdsOf(tokens[..i])
      {
        var found := ParseDecimal(tokens[i]);
        ghost var before := reporters;
        if found.Some? && found.value in reporters {
          reporters := reporters - {found.value};
          assert DecimalId(tokens[i]) == {found.value};
        } else if found.Some? {
          assert DecimalId(tokens[i]) == {found.value};
          MinusAbsent(reporters, found.value);
        } else {
          assert DecimalId(tokens[i]) == {};
          MinusNothing(reporters);
        }
        DecimalDeleteStep(old(reporters), tokens, i, before, reporters);
        i := i + 1;
      }
      assert tokens[..|tokens|] == tokens;
    }

    /** Deletes, group by group, the i32 ids listed by the groups `hs`. */
    method DeleteClearedIds(hs: set<string>)
      modifies this
      ensures groups == old(groups) && nextId == old(nextId)
      ensures reporters == old(reporters) - ClearedIds(groups, hs)
    {
      var todo := hs;
      ghost var done: set<string> := {};
      while todo != {}
        invariant todo !! done && todo + done == hs
        invariant groups == old(groups) && nextId == old(nextId)
        invariant reporters == old(reporters) - ClearedIds(groups, done)
        decreases |todo|
      {
        var h :| h in todo;
        if h in groups {
          DeleteI32Ids(Tokens(groups[h]));
          ClearStep(old(reporters), groups, done, h, reporters);
        } else {
          ClearedIdsSkip(groups, done, h);
        }
        done := done + {h};
        todo := todo - {h};
      }
    }

    /** Deletes, one token at a time, the reporter whose id the token parses to as an i32. */
    method DeleteI32Ids(tokens: seq<string>)
      modifies this
      ensures groups == old(groups) && nextId == old(nextId)
      ensures reporters == old(reporters) - I32IdsOf(tokens)
    {
      var i := 0;
      while i < |tokens|
        invariant 0 <= i <= |tokens|
        invariant groups == old(groups) && nextId == old(nextId)
        invariant reporters == old(reporters) - I32IdsOf(tokens[..i])
      {
        var v := ParseI32(tokens[i]);
        ghost var before := reporters;
        if v.Some? {
          reporters := reporters - {v.value};
          assert I32Id(tokens[i]) == {v.value};
        } else {
          assert I32Id(tokens[i]) == {};
          MinusNothing(reporters);
        }
        I32DeleteStep(old(reporters), tokens, i, before, reporters);
        i := i + 1;
      }
      assert tokens[..|tokens|] == tokens;
    }

    /**
     * `api_log_content`: any authenticated caller sees a group with its
     * reporters resolved in list order (missing ones skipped); `can_remove`
     * holds only for a solved group seen by the admin.
     */
    method Detail(username: string, password: Option<string>, hash: string) returns (r: Reply<DetailResult>)
      ensures UserAuthentication(config, username, password) == Denied <==> r == Challenge
      ensures UserAuthentication(config, username, password) != Denied && hash !in groups ==> r == Done(NoFile(hash))
      ensures UserAuthentication(config, username, password) != Denied && hash in groups ==>
                var g := groups[hash];
                r == Done(Found(DetailView(hash, Resolve(Tokens(g), reporters), g.firstTime, g.lastTime, g.totalCount,
                                           g.status, g.resolutionTime, g.message,
                                           CanRemove(g.status, UserAuthentication(config, username, password).isAdmin))))
    {
      var auth := UserAuthentication(config, username, password);
      if auth == Denied {
        return Challenge;
      }
      if hash !in groups {
        return Done(NoFile(hash));
      }
      var g := groups[hash];
      var tokens := Tokens(g);
      var users: seq<Brief> := [];
      var i := 0;
      while i < |tokens|
        invariant 0 <= i <= |tokens|
        invariant users == Resolve(tokens[..i], reporters)
      {
        var id := ParseDecimal(tokens[i]);
        if id.Some? && id.value in reporters {
          users := users + [BriefOf(id.value, reporters[id.value])];
        }
        assert tokens[..i + 1][..i] == tokens[..i];
        i := i + 1;
      }
      assert tokens[..|tokens|] == tokens;
      var canRemove := if g.status == 1 then auth.isAdmin else false;
      r := Done(Found(DetailView(hash, users, g.firstTime, g.lastTime, g.totalCount, g.status, g.resolutionTime, g.message, canRemove)));
    }

    /** In a valid store, a group's detail lists every reporter its list names. */
    lemma DetailListsAllReporters(hash: string)
      requires Valid() && hash in groups
      ensures |Resolve(Tokens(groups[hash]), reporters)| == |Tokens(groups[hash])|
    {
      var ts := Tokens(groups[hash]);
      forall i | 0 <= i < |ts| ensures ParseDecimal(ts[i]).Some? && ParseDecimal(ts[i]).value in reporters {
        RefIdsOfMember(ts, ParseDecimal(ts[i]).value);
      }
      ResolveComplete(ts, reporters);
    }

    /**
     * In a valid store a group lists between 1 and `ReporterCap + 1` reporters,
     * and never more than it has reports.
     */
    lemma ListsCapped(hash: string)
      requires Valid() && hash in groups
      ensures 1 <= |Tokens(groups[hash])| <= ReporterCap + 1
      ensures |Tokens(groups[hash])| <= groups[hash].totalCount
    {
    }

    /**
     * `api_user_log` (no authentication): a reporter's log blob, a
     * "No logs" text when the blob is empty, or "Not found" for an unknown id.
     */
    function UserLog(id: int): (r: UserLogResponse)
      reads this
      ensures r.id == id
      ensures id in reporters && reporters[id].logs != "" ==> r.logs == reporters[id].logs
      ensures id in reporters && reporters[id].logs == "" ==> r.logs == "No logs for id " + IntToString(id)
      ensures id !in reporters ==> r.logs == "Not found user log for id " + IntToString(id)
    {
      if id in reporters then
        UserLogResponse(id, if reporters[id].logs == "" then "No logs for id " + IntToString(id) else reporters[id].logs)
      else
        UserLogResponse(id, "Not found user log for id " + IntToString(id))
    }
  }

  /** One more group's ids deleted: the running deletion covers it too. */
  lemma ClearStep(m: map<int, Reporter>, groups: map<string, Group>, done: set<string>, h: string, r: map<int, Reporter>)
    requires h in groups
    requires r == m - ClearedIds(groups, done) - I32IdsOf(Tokens(groups[h]))
    ensures r == m - ClearedIds(groups, done + {h})
  {
    ClearedIdsAdd(groups, done, h);
  }

  /** A key with no group adds no ids. */
  lemma ClearedIdsSkip(groups: map<string, Group>, done: set<string>, h: string)
    requires h !in groups
    ensures ClearedIds(groups, done + {h}) == ClearedIds(groups, done)
  {
    forall id | id in ClearedIds(groups, done + {h}) ensures id in ClearedIds(groups, done) {
      var h' :| h' in done + {h} && h' in groups && id in I32IdsOf(Tokens(groups[h']));
    }
  }

  /** Clearing one more group deletes its i32 ids as well. */
  lemma ClearedIdsAdd(groups: map<string, Group>, hs: set<string>, h: string)
    requires h in groups
    ensures ClearedIds(groups, hs + {h}) == ClearedIds(groups, hs) + I32IdsOf(Tokens(groups[h]))
  {
    var lhs := ClearedIds(groups, hs + {h});
    var rhs := ClearedIds(groups, hs) + I32IdsOf(Tokens(groups[h]));
    forall id | id in rhs ensures id in lhs {
      if id !in I32IdsOf(Tokens(groups[h])) {
        var h' :| h' in hs && h' in groups && id in I32IdsOf(Tokens(groups[h']));
        assert h' in hs + {h};
      }
    }
    forall id | id in lhs ensures id in rhs {
      var h' :| h' in hs + {h} && h' in groups && id in I32IdsOf(Tokens(groups[h']));
    }
  }
}
