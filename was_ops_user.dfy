/**
 * wasOpsUser: creates the `wasops` group and one user in the file-based
 * registry, adds the user to the group, maps the group to the `operator`
 * administrative role and saves. Nodes are not synced.
 */
module WasOpsUser {
  import opened Common
  import opened Options
  import opened Admin

  const GroupCn := "wasops"
  const GroupDesc := "WAS Operators Group"
  const AdminRole := "operator"

  /** The `realm` parameter's default in `groupRoleMap`. */
  const DefaultRealm := "defaultWIMFileBasedRealm"

  /** The globals `userid`, `passwd`, `cname`, `sname`; `None` when no option assigned one. */
  datatype UserSettings = UserSettings(userid: Option<string>, passwd: Option<string>, cname: Option<string>, sname: Option<string>)

  const MinArgs: nat := 8

  const Flags: set<string> := {"--id", "--passphrase", "--commoname", "--surname"}

  /** What the argument stage leaves behind. */
  function Parse(argc: nat, parsed: Getopt): ArgsOutcome<UserSettings> {
    if argc < MinArgs || parsed.GetoptError? || !AllKnown(parsed.opts, Flags) then UsageExit
    else Parsed(UserSettings(
      LastValue(parsed.opts, "--id"), LastValue(parsed.opts, "--passphrase"),
      LastValue(parsed.opts, "--commoname"), LastValue(parsed.opts, "--surname")))
  }

  /** The dispatch loop of `get_args`. */
  method GetArgs(argc: nat, parsed: Getopt) returns (r: ArgsOutcome<UserSettings>)
    ensures r == Parse(argc, parsed)
  {
    if argc < MinArgs || parsed.GetoptError? {
      return UsageExit;
    }
    var opts := parsed.opts;
    var userid, passwd, cname, sname: Option<string> := None, None, None, None;
    var i := 0;
    while i < |opts|
      invariant i <= |opts| && AllKnown(opts[..i], Flags)
      invariant userid == LastValue(opts[..i], "--id")
      invariant passwd == LastValue(opts[..i], "--passphrase")
      invariant cname == LastValue(opts[..i], "--commoname")
      invariant sname == LastValue(opts[..i], "--surname")
    {
      var flag, val := opts[i].flag, opts[i].value;
      LastValueStep(opts, i, "--id");
      LastValueStep(opts, i, "--passphrase");
      LastValueStep(opts, i, "--commoname");
      LastValueStep(opts, i, "--surname");
      if flag == "--id" {
        userid := Some(val);
      } else if flag == "--passphrase" {
        passwd := Some(val);
      } else if flag == "--commoname" {
        cname := Some(val);
      } else if flag == "--surname" {
        sname := Some(val);
      } else {
        return UsageExit;
      }
      AllKnownStep(opts, i, Flags);
      i := i + 1;
    }
    assert opts[..i] == opts;
    return Parsed(UserSettings(userid, passwd, cname, sname));
  }

  /** The argument list of `AdminTask.createGroup`. */
  function GroupRequest(grpcn: string, grpdesc: string): seq<string> {
    ["-cn", grpcn, "-description", grpdesc]
  }

  /** The argument list of `AdminTask.createUser`. */
  function UserRequest(username: string, password: string, commonname: string, surname: string): seq<string> {
    ["-uid", username, "-password", password, "-cn", commonname, "-sn", surname]
  }

  /** The argument list of `AdminTask.addMemberToGroup`. */
  function AddRequest(user: string, group: string): seq<string> {
    ["-memberUniqueName", user, "-groupUniqueName", group]
  }

  /**
   * How a flat `[option, value, option, value, ...]` list is read: the value paired with
   * the first option named `name`, or `None` when no option position holds it.
   */
  function OptionValue(args: seq<string>, name: string): Option<string>
    decreases |args|
  {
    if |args| < 2 then None
    else if args[0] == name then Some(args[1])
    else OptionValue(args[2..], name)
  }

  /** A leading option pair answers for its own name and passes any other name on to the rest. */
  lemma OptionValuePair(option: string, value: string, rest: seq<string>, name: string)
    ensures OptionValue([option, value] + rest, name) ==
      if option == name then Some(value) else OptionValue(rest, name)
  {
    assert ([option, value] + rest)[2..] == rest;
  }

  /** Every option of the group request reads back its own value; no other option is present. */
  lemma GroupRequestReadsBack(grpcn: string, grpdesc: string, other: string)
    requires other != "-cn" && other != "-description"
    ensures OptionValue(GroupRequest(grpcn, grpdesc), "-cn") == Some(grpcn)
    ensures OptionValue(GroupRequest(grpcn, grpdesc), "-description") == Some(grpdesc)
    ensures OptionValue(GroupRequest(grpcn, grpdesc), other) == None
  {
    var tail := ["-description", grpdesc] + [];
    assert GroupRequest(grpcn, grpdesc) == ["-cn", grpcn] + tail;
    forall name | name in {"-cn", "-description", other}
      ensures OptionValue(GroupRequest(grpcn, grpdesc), name) ==
        if name == "-cn" then Some(grpcn) else if name == "-description" then Some(grpdesc) else None
    {
      OptionValuePair("-cn", grpcn, tail, name);
      OptionValuePair("-description", grpdesc, [], name);
    }
  }

  /** Every option of the user request reads back its own value, whatever the values are; no other option is present. */
  lemma UserRequestReadsBack(username: string, password: string, commonname: string, surname: string, other: string)
    requires other != "-uid" && other != "-password" && other != "-cn" && other != "-sn"
    ensures var r := UserRequest(username, password, commonname, surname);
      OptionValue(r, "-uid") == Some(username) && OptionValue(r, "-password") == Some(password) &&
      OptionValue(r, "-cn") == Some(commonname) && OptionValue(r, "-sn") == Some(surname) &&
      OptionValue(r, other) == None
  {
    var t3 := ["-sn", surname] + [];
    var t2 := ["-cn", commonname] + t3;
    var t1 := ["-password", password] + t2;
    assert UserRequest(username, password, commonname, surname) == ["-uid", username] + t1;
    forall name | name in {"-uid", "-password", "-cn", "-sn", other}
      ensures OptionValue(UserRequest(username, password, commonname, surname), name) ==
        if name == "-uid" then Some(username) else if name == "-password" then Some(password)
        else if name == "-cn" then Some(commonname) else if name == "-sn" then Some(surname) else None
    {
      OptionValuePair("-uid", username, t1, name);
      OptionValuePair("-password", password, t2, name);
      OptionValuePair("-cn", commonname, t3, name);
      OptionValuePair("-sn", surname, [], name);
    }
  }

  /** The add request names the member and the group by their own options; no other option is present. */
  lemma AddRequestReadsBack(user: string, group: string, other: string)
    requires other != "-memberUniqueName" && other != "-groupUniqueName"
    ensures OptionValue(AddRequest(user, group), "-memberUniqueName") == Some(user)
    ensures OptionValue(AddRequest(user, group), "-groupUniqueName") == Some(group)
    ensures OptionValue(AddRequest(user, group), other) == None
  {
    var tail := ["-groupUniqueName", group] + [];
    assert AddRequest(user, group) == ["-memberUniqueName", user] + tail;
    forall name | name in {"-memberUniqueName", "-groupUniqueName", other}
      ensures OptionValue(AddRequest(user, group), name) ==
        if name == "-memberUniqueName" then Some(user) else if name == "-groupUniqueName" then Some(group) else None
    {
      OptionValuePair("-memberUniqueName", user, tail, name);
      OptionValuePair("-groupUniqueName", group, [], name);
    }
  }

  /**
   * The `groupRoleMap` request. The group's access id is qualified by the realm; its
   * group id is the group's name with its first three characters (a `cn=` prefix) cut off.
   */
  function RoleConfig(group: string, realm: string): string {
    "[-roleName " + AdminRole + " -accessids [group:" + realm + "/" + group + " ] -groupids [" + SliceFrom(group, 3) + " ]]"
  }

  /** The words of the role request, in order. */
  function RoleConfigWords(group: string, realm: string): seq<string> {
    ["[-roleName", "operator", "-accessids", "[group:" + realm + "/" + group, "]", "-groupids", "[" + SliceFrom(group, 3), "]]"]
  }

  /** The front of the role request, up to the qualified group name. */
  lemma RoleAccessJoin(group: string, realm: string)
    ensures Join(["[-roleName", "operator", "-accessids", "[group:" + realm + "/" + group], ' ') ==
      "[-roleName " + AdminRole + " -accessids [group:" + realm + "/" + group
  {
    var w1 := ["[-roleName", AdminRole];
    var p1 := "[-roleName " + AdminRole;
    JoinSnoc(["[-roleName"], AdminRole, ' ');
    assert "[-roleName" + [' '] == "[-roleName ";
    var p2 := p1 + " -accessids [group:" + realm;
    SpacedPairInto(w1, p1, "-accessids", "[group:", realm, " -accessids [group:");
    assert w1 + ["-accessids"] + ["[group:" + realm] == w1 + ["-accessids", "[group:" + realm];
    JoinExtend(w1 + ["-accessids"], "[group:" + realm, p2, "/", ' ');
    JoinExtend(w1 + ["-accessids"], "[group:" + realm + "/", p2 + "/", group, ' ');
    assert w1 + ["-accessids"] + ["[group:" + realm + "/" + group] ==
      ["[-roleName", "operator", "-accessids", "[group:" + realm + "/" + group];
  }

  /** The role request is these words joined by single spaces. */
  lemma RoleConfigJoin(group: string, realm: string)
    ensures Join(RoleConfigWords(group, realm), ' ') == RoleConfig(group, realm)
  {
    var w3 := ["[-roleName", "operator", "-accessids", "[group:" + realm + "/" + group];
    var p3 := "[-roleName " + AdminRole + " -accessids [group:" + realm + "/" + group;
    RoleAccessJoin(group, realm);
    var slice := SliceFrom(group, 3);
    SpacedTripleInto(w3, p3, "]", "-groupids", "[", slice, " ] -groupids [");
    var w4 := w3 + ["]", "-groupids", "[" + slice];
    var p4 := p3 + " ] -groupids [" + slice;
    JoinSnoc(w4, "]]", ' ');
    assert p4 + [' '] + "]]" == p4 + " ]]";
    assert w4 + ["]]"] == RoleConfigWords(group, realm);
  }

  /** For a space-free group and realm the role request splits back into exactly its words. */
  lemma RoleConfigSplits(group: string, realm: string)
    requires Free(group, ' ') && Free(realm, ' ')
    ensures Split(RoleConfig(group, realm), ' ') == RoleConfigWords(group, realm)
  {
    var ws := RoleConfigWords(group, realm);
    RoleConfigJoin(group, realm);
    forall i | 0 <= i < |ws| ensures Free(ws[i], ' ') {
      if i == 3 {
        assert ws[i] == "[group:" + realm + "/" + group;
      } else if i == 6 {
        assert ws[i] == "[" + SliceFrom(group, 3);
      }
    }
    SplitOfJoin(ws, ' ');
  }

  /** For a group named `cn=X`, the group id in the request is `X`. */
  lemma GroupIdDropsCommonNamePrefix(x: string)
    ensures SliceFrom("cn=" + x, 3) == x
  {
    assert ("cn=" + x)[3..] == x;
  }

  /**
   * The runtime's answers: the new group's and the new user's unique names, the
   * add-member result, the role-mapping result and `AdminConfig.save`.
   */
  datatype Answers = Answers(group: Fallible<string>, user: Fallible<string>, add: Fallible<string>,
                             role: Fallible<string>, save: Fallible<string>)

  /** `groupRoleMap`: an exception or an empty result exits 1; a non-empty result goes on. */
  function GroupRoleMap(group: string, role: Fallible<string>, rest: Outcome): Outcome {
    var call := MapGroupsToAdminRole(RoleConfig(group, DefaultRealm));
    if role.Raised? || role.value == "" then Outcome([call], Code(1)) else Then([call], rest)
  }

  /**
   * `main`: arguments, create the group, create the user (reading the four user
   * globals), add the user to the group, map the group to the role, save, exit 0.
   */
  function Run(argc: nat, parsed: Getopt, env: Answers): Outcome {
    match Parse(argc, parsed)
    case UsageExit => Outcome([], Code(2))
    case Parsed(u) =>
      var createGroup := CreateGroup(GroupRequest(GroupCn, GroupDesc));
      if env.group.Raised? then Outcome([createGroup], Code(1))
      else if u.userid.None? || u.passwd.None? || u.cname.None? || u.sname.None? then Outcome([createGroup], Uncaught)
      else
        var createUser := CreateUser(UserRequest(u.userid.value, u.passwd.value, u.cname.value, u.sname.value));
        if env.user.Raised? then Outcome([createGroup, createUser], Code(1))
        else
          var add := AddMemberToGroup(AddRequest(env.user.value, env.group.value));
          if env.add.Raised? then Outcome([createGroup, createUser, add], Code(1))
          else Then([createGroup, createUser, add],
                    GroupRoleMap(env.group.value, env.role, SaveConfig(env.save, Outcome([], Code(0)))))
  }

  /** Too few argv entries or a getopt error: usage and exit 2, before any call to the runtime. */
  lemma UsageBeforeWork(argc: nat, parsed: Getopt, env: Answers)
    requires argc < MinArgs || parsed.GetoptError?
    ensures Run(argc, parsed, env) == Outcome([], Code(2))
  {
  }

  /** The user globals are first read after the group exists: a missing one raises with the group already created. */
  lemma MissingUserOptionRaisesAfterGroup(argc: nat, parsed: Getopt, env: Answers)
    requires Parse(argc, parsed).Parsed? && env.group.Returned?
    requires !Given(parsed.opts, "--id") || !Given(parsed.opts, "--passphrase") ||
             !Given(parsed.opts, "--commoname") || !Given(parsed.opts, "--surname")
    ensures Run(argc, parsed, env) == Outcome([CreateGroup(["-cn", "wasops", "-description", "WAS Operators Group"])], Uncaught)
  {
    LastValueAbsent(parsed.opts, "--id");
    LastValueAbsent(parsed.opts, "--passphrase");
    LastValueAbsent(parsed.opts, "--commoname");
    LastValueAbsent(parsed.opts, "--surname");
  }

  /**
   * The run ends in exit 0 exactly when the arguments parsed with all four user options,
   * no call raised, the role mapping returned something and save returned nothing. The
   * calls are then: create group, create user, add the returned user to the returned
   * group, map that group to the role, save.
   */
  lemma SucceedsIff(argc: nat, parsed: Getopt, env: Answers)
    ensures Succeeded(Run(argc, parsed, env)) <==>
      Parse(argc, parsed).Parsed? &&
      Given(parsed.opts, "--id") && Given(parsed.opts, "--passphrase") &&
      Given(parsed.opts, "--commoname") && Given(parsed.opts, "--surname") &&
      env.group.Returned? && env.user.Returned? && env.add.Returned? &&
      env.role.Returned? && env.role.value != "" && env.save == Returned("")
    ensures Succeeded(Run(argc, parsed, env)) ==>
      var opts := parsed.opts;
      Run(argc, parsed, env).steps == [
        CreateGroup(["-cn", "wasops", "-description", "WAS Operators Group"]),
        CreateUser(["-uid", LastValue(opts, "--id").value, "-password", LastValue(opts, "--passphrase").value,
                    "-cn", LastValue(opts, "--commoname").value, "-sn", LastValue(opts, "--surname").value]),
        AddMemberToGroup(["-memberUniqueName", env.user.value, "-groupUniqueName", env.group.value]),
        MapGroupsToAdminRole(RoleConfig(env.group.value, "defaultWIMFileBasedRealm")),
        Save]
  {
    if parsed.Opts? {
      LastValueAbsent(parsed.opts, "--id");
      LastValueAbsent(parsed.opts, "--passphrase");
      LastValueAbsent(parsed.opts, "--commoname");
      LastValueAbsent(parsed.opts, "--surname");
    }
  }

  /** The role mapping decides on its result: only a non-empty answer lets the run reach save. */
  lemma RoleMappingRule(argc: nat, parsed: Getopt, env: Answers)
    requires Parse(argc, parsed).Parsed? && env.group.Returned? && env.user.Returned? && env.add.Returned?
    requires var u := Parse(argc, parsed).settings;
      u.userid.Some? && u.passwd.Some? && u.cname.Some? && u.sname.Some?
    ensures var o := Run(argc, parsed, env);
      (env.role.Raised? || env.role == Returned("")) <==> (o.exit == Code(1) && |o.steps| == 4)
    ensures var o := Run(argc, parsed, env);
      Save in o.steps <==> env.role.Returned? && env.role.value != ""
  {
  }

  /** Nodes are never synced, whatever the answers. */
  lemma NeverSyncs(argc: nat, parsed: Getopt, env: Answers)
    ensures SyncActiveNodes !in Run(argc, parsed, env).steps
  {
  }
}
