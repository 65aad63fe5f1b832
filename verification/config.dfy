/**
 * The inventory loader of fabrix: `parse_config` validates an already-parsed
 * YAML document in a fixed order, aborting at the first problem, and builds a
 * variable scope for every declared host; `read_config` finds the document;
 * the `conf` view reads and writes the scope of the current host.
 *
 * YAML itself is not modelled: the loader receives the parsed `Value`, and the
 * `yaml.dump` / `str` texts that some messages embed come from a `Printer`.
 */
module Config {
  import opened Results
  import opened Text
  import opened Values
  import opened PosixPath
  import opened IoUtil

  /** The texts `yaml.dump(v)` and `str(v)` give for a value. */
  datatype Printer = Printer(dump: Value -> string, str: Value -> string)

  /** A variable scope: a Python `dict` of variables. */
  type Scope = map<string, Value>

  // ---------------------------------------------------------------------------
  // Entries of the document
  // ---------------------------------------------------------------------------

  /** `if key not in entry: abort(missing)` followed by `entry[key]`. */
  function RequiredField(entry: Value, key: string, missing: string): (r: Result<Value>)
    ensures entry.Dict? && key in Keys(entry.pairs) ==> r == Ok(Lookup(entry.pairs, key).value)
    ensures entry.Dict? && key !in Keys(entry.pairs) ==> r == Fail(missing)
    ensures entry.Null? || entry.Bool? || entry.Int? ==> r == Raise("TypeError")
    ensures r.Ok? ==> entry.Dict?
  {
    var present :- Contains(entry, key);
    if !present then Fail(missing) else Item(entry, key)
  }

  /** The strings of a list whose items are all strings. */
  function Strings(items: seq<Value>): (hs: seq<string>)
    requires forall i :: 0 <= i < |items| ==> items[i].Str?
    ensures |hs| == |items|
    ensures forall i :: 0 <= i < |items| ==> hs[i] == items[i].s
  {
    if |items| == 0 then [] else [items[0].s] + Strings(items[1..])
  }

  // ---------------------------------------------------------------------------
  // Host lists (`hosts`, and the `hosts` of a role)
  // ---------------------------------------------------------------------------

  /** Item `j` of a host list is refused: empty, not a string, or a repeat. */
  predicate BadHost(items: seq<Value>, j: nat)
    requires j < |items|
  {
    items[j] == Null || items[j] == Str("") || !items[j].Str? || items[j] in items[..j]
  }

  /** Item `j` is the first refused item of the list. */
  predicate FirstBad(items: seq<Value>, j: nat)
  {
    j < |items| && BadHost(items, j) && forall m :: 0 <= m < j ==> !BadHost(items, m)
  }

  /** What the loop aborts with on a refused item; `role` is `None` for the top-level list. */
  function HostMessage(items: seq<Value>, j: nat, role: Option<string>): string
    requires j < |items|
  {
    var v := items[j];
    if v == Null || v == Str("") then
      if role.None? then "read_config: hosts host can't be empty string"
      else "read_config: role hosts host can't be empty string"
    else if !v.Str? then
      if role.None? then "read_config: hosts must be list of strings"
      else "read_config: role hosts must be list of strings"
    else if role.None? then "read_config: host '" + v.s + "' already defined in hosts list"
    else "read_config: host '" + v.s + "' already defined in role '" + role.value + "' hosts list"
  }

  /** The host-list loop from item `i` on, the items before `i` having passed. */
  function HostListFrom(items: seq<Value>, i: nat, role: Option<string>): (r: Result<seq<string>>)
    requires i <= |items|
    requires forall j :: 0 <= j < i ==> !BadHost(items, j)
    ensures r.Ok? <==> forall j :: i <= j < |items| ==> !BadHost(items, j)
    ensures r.Err? ==> exists j :: i <= j && FirstBad(items, j) && r == Fail(HostMessage(items, j, role))
    decreases |items| - i
  {
    if i == |items| then Ok([])
    else if BadHost(items, i) then Fail(HostMessage(items, i, role))
    else
      var rest :- HostListFrom(items, i + 1, role);
      Ok([items[i].s] + rest)
  }

  /**
   * The checks on the items of a host list: every item a non-empty string and
   * no string twice, else the first refused item decides the message.
   */
  function HostList(items: seq<Value>, role: Option<string>): (r: Result<seq<string>>)
    ensures r.Ok? <==> forall j :: 0 <= j < |items| ==> !BadHost(items, j)
    ensures r.Ok? ==> forall j :: 0 <= j < |items| ==> items[j].Str? && items[j].s != ""
    ensures r.Ok? ==> r.value == Strings(items)
    ensures r.Err? ==> exists j :: FirstBad(items, j) && r == Fail(HostMessage(items, j, role))
  {
    var hs :- HostListFrom(items, 0, role);
    assert forall j :: 0 <= j < |items| ==> items[j].Str? && items[j].s != "" by {
      forall j | 0 <= j < |items| ensures items[j].Str? && items[j].s != "" {
        assert !BadHost(items, j);
      }
    }
    Ok(Strings(items))
  }

  /** An accepted host list holds no host twice. */
  lemma HostListDistinct(items: seq<Value>, role: Option<string>)
    requires HostList(items, role).Ok?
    ensures var hs := HostList(items, role).value;
      forall i, j :: 0 <= i < j < |hs| ==> hs[i] != hs[j]
  {
    var hs := HostList(items, role).value;
    forall i, j | 0 <= i < j < |hs| ensures hs[i] != hs[j] {
      assert !BadHost(items, j);
      assert items[i] == items[..j][i];
    }
  }

  // ---------------------------------------------------------------------------
  // roles
  // ---------------------------------------------------------------------------

  /**
   * What the `roles` loop accumulates: the role dictionary in insertion order,
   * each host's roles in the order they were declared, and all role hosts.
   */
  datatype RoleTable = RoleTable(order: seq<(string, seq<string>)>, hostRoles: map<string, seq<string>>, hosts: set<string>)

  function RoleNames(order: seq<(string, seq<string>)>): set<string>
  {
    set i | 0 <= i < |order| :: order[i].0
  }

  /** Reference: the roles whose host list names `h`, in declaration order. */
  function RolesOf(order: seq<(string, seq<string>)>, h: string): seq<string>
  {
    if |order| == 0 then []
    else RolesOf(order[..|order| - 1], h) + (if h in order[|order| - 1].1 then [order[|order| - 1].0] else [])
  }

  function HostSet(hs: seq<string>): set<string>
  {
    set h | h in hs
  }

  /** Reference: every host some role names. */
  function HostsOf(order: seq<(string, seq<string>)>): set<string>
  {
    set i, j | 0 <= i < |order| && 0 <= j < |order[i].1| :: order[i].1[j]
  }

  /** The table agrees with its role dictionary. */
  ghost predicate Consistent(t: RoleTable)
  {
    && t.hosts == HostsOf(t.order)
    && t.hostRoles.Keys == t.hosts
    && (forall h :: h in t.hostRoles ==> t.hostRoles[h] == RolesOf(t.order, h))
  }

  /** `host_roles[host].append(role)` for every host of the role's list. */
  function AddRole(hostRoles: map<string, seq<string>>, hs: seq<string>, role: string): (m: map<string, seq<string>>)
    ensures m.Keys == hostRoles.Keys + HostSet(hs)
    ensures forall h :: h in m ==> m[h] == (if h in hostRoles then hostRoles[h] else []) + (if h in hs then [role] else [])
  {
    map h | h in hostRoles.Keys + HostSet(hs) :: (if h in hostRoles then hostRoles[h] else []) + (if h in hs then [role] else [])
  }

  lemma HostsOfSnoc(order: seq<(string, seq<string>)>, e: (string, seq<string>))
    ensures HostsOf(order + [e]) == HostsOf(order) + HostSet(e.1)
  {
    var o := order + [e];
    forall h | h in HostsOf(o) ensures h in HostsOf(order) + HostSet(e.1) {
      var i, j :| 0 <= i < |o| && 0 <= j < |o[i].1| && o[i].1[j] == h;
      if i < |order| {
        assert order[i].1[j] == h;
      }
    }
    forall h | h in HostsOf(order) ensures h in HostsOf(o) {
      var i, j :| 0 <= i < |order| && 0 <= j < |order[i].1| && order[i].1[j] == h;
      assert o[i].1[j] == h;
    }
    forall h | h in e.1 ensures h in HostsOf(o) {
      var j :| 0 <= j < |e.1| && e.1[j] == h;
      assert o[|order|].1[j] == h;
    }
  }

  lemma RoleNamesSnoc(order: seq<(string, seq<string>)>, e: (string, seq<string>))
    ensures RoleNames(order + [e]) == RoleNames(order) + {e.0}
  {
    var o := order + [e];
    forall r | r in RoleNames(o) ensures r in RoleNames(order) + {e.0} {
      var i :| 0 <= i < |o| && o[i].0 == r;
      if i < |order| {
        assert order[i].0 == r;
      }
    }
    forall r | r in RoleNames(order) ensures r in RoleNames(o) {
      var i :| 0 <= i < |order| && order[i].0 == r;
      assert o[i].0 == r;
    }
    assert o[|order|].0 == e.0;
  }

  /** Adding a role to a consistent table keeps it consistent. */
  lemma AddRoleConsistent(t: RoleTable, role: string, hs: seq<string>)
    requires Consistent(t)
    ensures var order := t.order + [(role, hs)];
      Consistent(RoleTable(order, AddRole(t.hostRoles, hs, role), t.hosts + HostSet(hs)))
  {
    var order := t.order + [(role, hs)];
    HostsOfSnoc(t.order, (role, hs));
    assert order[..|order| - 1] == t.order;
    var m := AddRole(t.hostRoles, hs, role);
    forall h | h in m ensures m[h] == RolesOf(order, h) {
      assert RolesOf(order, h) == RolesOf(t.order, h) + (if h in hs then [role] else []);
      if h !in t.hostRoles {
        assert h !in HostsOf(t.order);
        RolesOfAbsent(t.order, h);
      }
    }
  }

  /** A host no role names has no roles. */
  lemma {:induction false} RolesOfAbsent(order: seq<(string, seq<string>)>, h: string)
    requires h !in HostsOf(order)
    ensures RolesOf(order, h) == []
    decreases |order|
  {
    if |order| > 0 {
      var init := order[..|order| - 1];
      var e := order[|order| - 1];
      HostsOfSnoc(init, e);
      assert init + [e] == order;
      RolesOfAbsent(init, h);
    }
  }

  /** Reference: the role and host list a `roles` entry declares, read off the entry. */
  function RoleDecl(entry: Value): (string, seq<string>)
  {
    if entry.Dict? then
      match (Lookup(entry.pairs, "role"), Lookup(entry.pairs, "hosts"))
      case (Some(Str(role)), Some(List(items))) =>
        if forall j :: 0 <= j < |items| ==> items[j].Str? then (role, Strings(items)) else (role, [])
      case _ => ("", [])
    else ("", [])
  }

  /** Reference: the role declarations of a `roles` list, in document order. */
  function RoleDecls(entries: seq<Value>): (order: seq<(string, seq<string>)>)
    ensures |order| == |entries|
  {
    if |entries| == 0 then [] else [RoleDecl(entries[0])] + RoleDecls(entries[1..])
  }

  /** The body of the `roles` loop for one entry. */
  function RoleEntry(entry: Value, t: RoleTable, pr: Printer): (r: Result<RoleTable>)
    ensures r.Ok? ==> var role, hs := RoleDecl(entry).0, RoleDecl(entry).1;
      && r.value.order == t.order + [(role, hs)]
      && role !in RoleNames(t.order) && role != ""
      && r.value.hostRoles == AddRole(t.hostRoles, hs, role)
      && r.value.hosts == t.hosts + HostSet(hs)
  {
    var roleV :- RequiredField(entry, "role", "read_config: roles role required");
    var rest := Without(entry.pairs, "role");
    if roleV == Null || roleV == Str("") then Fail("read_config: roles role can't be empty string")
    else if !roleV.Str? then Fail("read_config: roles role must be string type")
    else if "hosts" !in Keys(rest) then Fail("read_config: roles hosts required")
    else
      var hostsV := Lookup(rest, "hosts").value;
      if !hostsV.List? then Fail("read_config: roles hosts must be list type")
      else
        var hs :- HostList(hostsV.items, Some(roleV.s));
        if roleV.s in RoleNames(t.order) then Fail("read_config: role '" + roleV.s + "' already defined")
        else
          var left := Without(rest, "hosts");
          if |left| > 0 then Fail("read_config: unexpected roles entry: " + pr.dump(Dict(left)))
          else Ok(RoleTable(t.order + [(roleV.s, hs)], AddRole(t.hostRoles, hs, roleV.s), t.hosts + HostSet(hs)))
  }

  /** A role table's role names are distinct. */
  predicate DistinctRoles(order: seq<(string, seq<string>)>)
  {
    forall i, j :: 0 <= i < j < |order| ==> order[i].0 != order[j].0
  }

  lemma DistinctSnoc(order: seq<(string, seq<string>)>, e: (string, seq<string>))
    requires DistinctRoles(order) && e.0 !in RoleNames(order)
    ensures DistinctRoles(order + [e])
  {
    var o := order + [e];
    forall a, b | 0 <= a < b < |o| ensures o[a].0 != o[b].0 {
      assert o[a] == order[a];
      if b < |order| {
        assert o[b] == order[b];
      }
    }
  }

  /** One accepted entry keeps the table consistent and its role names distinct. */
  lemma RoleStep(entries: seq<Value>, i: nat, t: RoleTable, pr: Printer)
    requires i < |entries|
    requires Consistent(t) && DistinctRoles(t.order)
    requires RoleEntry(entries[i], t, pr).Ok?
    ensures var t' := RoleEntry(entries[i], t, pr).value;
      && Consistent(t') && DistinctRoles(t'.order) && t.hosts <= t'.hosts
      && t'.order + RoleDecls(entries[i + 1..]) == t.order + RoleDecls(entries[i..])
  {
    assert entries[i..][1..] == entries[i + 1..];
    var role, hs := RoleDecl(entries[i]).0, RoleDecl(entries[i]).1;
    AddRoleConsistent(t, role, hs);
    DistinctSnoc(t.order, (role, hs));
  }

  /** The `roles` loop from entry `i` on. */
  function RolesFrom(entries: seq<Value>, i: nat, t: RoleTable, pr: Printer): (r: Result<RoleTable>)
    requires i <= |entries|
    requires Consistent(t) && DistinctRoles(t.order)
    ensures r.Ok? ==> Consistent(r.value) && DistinctRoles(r.value.order)
    ensures r.Ok? ==> r.value.order == t.order + RoleDecls(entries[i..]) && t.hosts <= r.value.hosts
    decreases |entries| - i
  {
    if i == |entries| then Ok(t)
    else
      var t' :- RoleEntry(entries[i], t, pr);
      RoleStep(entries, i, t, pr);
      RolesFrom(entries, i + 1, t', pr)
  }

  /** `roles`: a non-empty list of role entries naming at least one host between them. */
  function ParseRoles(v: Value, pr: Printer): (r: Result<RoleTable>)
    ensures !v.List? ==> r == Fail("read_config: roles must be list type")
    ensures v == List([]) ==> r == Fail("read_config: roles must not be empty")
    ensures r.Ok? ==> Consistent(r.value) && DistinctRoles(r.value.order)
    ensures r.Ok? ==> v.List? && r.value.order == RoleDecls(v.items) && |v.items| > 0 && r.value.hosts != {}
  {
    if !v.List? then Fail("read_config: roles must be list type")
    else if |v.items| == 0 then Fail("read_config: roles must not be empty")
    else
      assert v.items[0..] == v.items;
      var t :- RolesFrom(v.items, 0, RoleTable([], map[], {}), pr);
      if t.hosts == {} then Fail("read_config: roles hosts must not be empty") else Ok(t)
  }

  /**
   * A `roles` entry of the plain form `{role: <name>, hosts: [...]}`: a
   * non-empty name and a host list the host checks accept, possibly empty.
   */
  predicate PlainRoleEntry(entry: Value)
  {
    && entry.Dict? && |entry.pairs| == 2
    && entry.pairs[0].0 == "role" && entry.pairs[0].1.Str? && entry.pairs[0].1.s != ""
    && entry.pairs[1].0 == "hosts" && entry.pairs[1].1.List?
    && HostList(entry.pairs[1].1.items, Some(entry.pairs[0].1.s)).Ok?
  }

  /** A plain entry naming a role not yet declared is accepted, even with an empty host list. */
  lemma RoleEntryAccepts(entry: Value, t: RoleTable, pr: Printer)
    requires PlainRoleEntry(entry) && RoleDecl(entry).0 !in RoleNames(t.order)
    ensures RoleEntry(entry, t, pr).Ok?
  {
    var ps := entry.pairs;
    assert ps[..1][..0] == [];
    assert Lookup(ps, "role") == Some(ps[0].1);
    assert Lookup(ps, "hosts") == Some(ps[1].1);
    assert Without(ps[..1], "role") == [];
    var rest := Without(ps, "role");
    assert rest == [ps[1]];
    assert rest[..0] == [];
    assert Without(rest, "hosts") == [];
  }

  /** The `roles` loop accepts plain entries whose role names are new and distinct. */
  lemma {:induction false} RolesFromAccepts(entries: seq<Value>, i: nat, t: RoleTable, pr: Printer)
    requires i <= |entries|
    requires Consistent(t) && DistinctRoles(t.order)
    requires forall j :: i <= j < |entries| ==> PlainRoleEntry(entries[j])
    requires DistinctRoles(t.order + RoleDecls(entries[i..]))
    ensures RolesFrom(entries, i, t, pr).Ok?
    decreases |entries| - i
  {
    if i < |entries| {
      var e := RoleDecl(entries[i]);
      assert entries[i..][1..] == entries[i + 1..];
      var o := t.order + RoleDecls(entries[i..]);
      assert o[|t.order|] == e;
      forall a | 0 <= a < |t.order| ensures t.order[a].0 != e.0 {
        assert o[a] == t.order[a];
      }
      RoleEntryAccepts(entries[i], t, pr);
      RoleStep(entries, i, t, pr);
      RolesFromAccepts(entries, i + 1, RoleEntry(entries[i], t, pr).value, pr);
    }
  }

  /**
   * The converse of `ParseRoles`' contract for plain entries: distinct role
   * names and at least one host between all the roles suffice, whatever the
   * host lists of the other roles hold.
   */
  lemma ParseRolesAccepts(entries: seq<Value>, pr: Printer)
    requires |entries| > 0
    requires forall j :: 0 <= j < |entries| ==> PlainRoleEntry(entries[j])
    requires DistinctRoles(RoleDecls(entries)) && HostsOf(RoleDecls(entries)) != {}
    ensures ParseRoles(List(entries), pr).Ok?
  {
    var t0 := RoleTable([], map[], {});
    assert entries[0..] == entries;
    assert t0.order + RoleDecls(entries) == RoleDecls(entries);
    RolesFromAccepts(entries, 0, t0, pr);
  }

  /**
   * A role with `hosts: []` is accepted beside a role that has hosts, and
   * refused with "roles hosts must not be empty" when it is the only role.
   */
  lemma ParseRolesEmptyHostList(pr: Printer)
    ensures var web := Dict([("role", Str("web")), ("hosts", List([]))]);
      var db := Dict([("role", Str("db")), ("hosts", List([Str("db1")]))]);
      && ParseRoles(List([web, db]), pr).Ok?
      && ParseRoles(List([web, db]), pr).value.order == [("web", []), ("db", ["db1"])]
      && ParseRoles(List([web]), pr) == Fail("read_config: roles hosts must not be empty")
  {
    var web := Dict([("role", Str("web")), ("hosts", List([]))]);
    var db := Dict([("role", Str("db")), ("hosts", List([Str("db1")]))]);
    assert [Str("db1")][..0] == [];
    assert !BadHost([Str("db1")], 0);
    assert PlainRoleEntry(web) && PlainRoleEntry(db);
    assert RoleDecl(web) == ("web", []);
    assert RoleDecl(db) == ("db", ["db1"]) by {
      assert Strings([Str("db1")]) == ["db1"];
    }
    var decls := RoleDecls([web, db]);
    assert [web, db][1..] == [db] && [db][1..] == [];
    assert RoleDecls([db]) == [RoleDecl(db)];
    assert decls == [("web", []), ("db", ["db1"])];
    assert decls[1].1[0] == "db1";
    assert "db1" in HostsOf(decls);
    ParseRolesAccepts([web, db], pr);
    var one := RoleDecls([web]);
    assert [web][1..] == [];
    assert one == [("web", [])];
    assert HostsOf(one) == {};
    assert [web][0..] == [web];
    RolesFromAccepts([web], 0, RoleTable([], map[], {}), pr);
  }

  // ---------------------------------------------------------------------------
  // host_vars and role_vars
  // ---------------------------------------------------------------------------

  /** Which hosts the document declares: the `hosts` list, or the roles. */
  datatype Declared = HostsMode(hosts: seq<string>) | RolesMode(roles: RoleTable)

  function DeclaredHosts(d: Declared): set<string>
  {
    match d
    case HostsMode(hs) => HostSet(hs)
    case RolesMode(t) => t.hosts
  }

  /**
   * Reference: what an entry of `host_vars` (naming field `host`) or
   * `role_vars` (naming field `role`) binds: the name to its `vars` dictionary.
   */
  function EntryBinding(entry: Value, field: string): map<string, Scope>
  {
    if entry.Dict? then
      match (Lookup(entry.pairs, field), Lookup(entry.pairs, "vars"))
      case (Some(Str(name)), Some(Dict(vars))) => map[name := ToMap(vars)]
      case _ => map[]
    else map[]
  }

  /** Reference: the table a list of such entries describes, a later entry overriding an earlier one. */
  function VarsTable(entries: seq<Value>, field: string): map<string, Scope>
  {
    if |entries| == 0 then map[] else EntryBinding(entries[0], field) + VarsTable(entries[1..], field)
  }

  /** The body of the `host_vars` loop for one entry. */
  function HostVarsEntry(entry: Value, d: Declared, acc: map<string, Scope>, pr: Printer): (r: Result<map<string, Scope>>)
    ensures r.Ok? ==> exists h ::
      && h in DeclaredHosts(d) && h !in acc && h in r.value
      && r.value == acc[h := r.value[h]]
    ensures r.Ok? ==> r.value == acc + EntryBinding(entry, "host")
  {
    var hostV :- RequiredField(entry, "host", "read_config: host_vars host required");
    if !hostV.Str? then Fail("read_config: host_vars host must be string type")
    else
      var host := hostV.s;
      var rest := Without(entry.pairs, "host");
      if d.HostsMode? && host !in d.hosts then
        Fail("read_config: host_vars host '" + host + "' not defined in hosts list")
      else if d.RolesMode? && host !in d.roles.hosts then
        Fail("read_config: host_vars host '" + host + "' not defined in roles hosts list")
      else if "vars" !in Keys(rest) then Fail("read_config: host_vars vars required")
      else
        var varsV := Lookup(rest, "vars").value;
        if !varsV.Dict? then Fail("read_config: host_vars vars must be dictionary type")
        else if host in acc then Fail("read_config: host_vars host '" + host + "' already defined")
        else
          var left := Without(rest, "vars");
          if |left| > 0 then Fail("read_config: unexpected host_vars entry: " + pr.dump(Dict(left)))
          else Ok(acc[host := ToMap(varsV.pairs)])
  }

  function HostVarsFrom(entries: seq<Value>, i: nat, d: Declared, acc: map<string, Scope>, pr: Printer): (r: Result<map<string, Scope>>)
    requires i <= |entries|
    requires acc.Keys <= DeclaredHosts(d)
    ensures r.Ok? ==> acc.Keys <= r.value.Keys <= DeclaredHosts(d)
    ensures r.Ok? ==> r.value == acc + VarsTable(entries[i..], "host")
    decreases |entries| - i
  {
    if i == |entries| then Ok(acc)
    else
      var acc' :- HostVarsEntry(entries[i], d, acc, pr);
      var r := HostVarsFrom(entries, i + 1, d, acc', pr);
      assert entries[i..][1..] == entries[i + 1..];
      MapUnionAssoc(acc, EntryBinding(entries[i], "host"), VarsTable(entries[i + 1..], "host"));
      r
  }

  lemma MapUnionAssoc(a: map<string, Scope>, b: map<string, Scope>, c: map<string, Scope>)
    ensures (a + b) + c == a + (b + c)
  {
  }

  /** `host_vars`: a list of entries, each giving the variables of one declared host. */
  function ParseHostVars(v: Value, d: Declared, pr: Printer): (r: Result<map<string, Scope>>)
    ensures !v.List? ==> r == Fail("read_config: host_vars must be list type")
    ensures r.Ok? ==> r.value.Keys <= DeclaredHosts(d)
    ensures r.Ok? ==> v.List? && r.value == VarsTable(v.items, "host")
  {
    if !v.List? then Fail("read_config: host_vars must be list type")
    else
      assert v.items[0..] == v.items;
      HostVarsFrom(v.items, 0, d, map[], pr)
  }

  /** The role dictionary as the value `str` prints in one of the messages. */
  function RolesValue(order: seq<(string, seq<string>)>): Value
  {
    Dict(seq(|order|, i requires 0 <= i < |order| => (order[i].0, List(seq(|order[i].1|, j requires 0 <= j < |order[i].1| => Str(order[i].1[j]))))))
  }

  /** The body of the `role_vars` loop for one entry. */
  function RoleVarsEntry(entry: Value, t: RoleTable, acc: map<string, Scope>, pr: Printer): (r: Result<map<string, Scope>>)
    ensures r.Ok? ==> exists role ::
      && role in RoleNames(t.order) && role !in acc && role in r.value
      && r.value == acc[role := r.value[role]]
    ensures r.Ok? ==> r.value == acc + EntryBinding(entry, "role")
  {
    var roleV :- RequiredField(entry, "role", "read_config: role_vars role required");
    if !roleV.Str? then Fail("read_config: role_vars role must be string type")
    else
      var role := roleV.s;
      var rest := Without(entry.pairs, "role");
      if role !in RoleNames(t.order) then
        Fail("read_config: role_vars role '" + pr.str(RolesValue(t.order)) + "' not defined in roles")
      else if "vars" !in Keys(rest) then Fail("read_config: role_vars vars required")
      else
        var varsV := Lookup(rest, "vars").value;
        if !varsV.Dict? then Fail("read_config: role_vars vars must be dictionary type")
        else if role in acc then Fail("read_config: role_vars role '" + role + "' already defined")
        else
          var left := Without(rest, "vars");
          if |left| > 0 then Fail("read_config: unexpected role_vars entry: " + pr.dump(Dict(left)))
          else Ok(acc[role := ToMap(varsV.pairs)])
  }

  function RoleVarsFrom(entries: seq<Value>, i: nat, t: RoleTable, acc: map<string, Scope>, pr: Printer): (r: Result<map<string, Scope>>)
    requires i <= |entries|
    requires acc.Keys <= RoleNames(t.order)
    ensures r.Ok? ==> acc.Keys <= r.value.Keys <= RoleNames(t.order)
    ensures r.Ok? ==> r.value == acc + VarsTable(entries[i..], "role")
    decreases |entries| - i
  {
    if i == |entries| then Ok(acc)
    else
      var acc' :- RoleVarsEntry(entries[i], t, acc, pr);
      var r := RoleVarsFrom(entries, i + 1, t, acc', pr);
      assert entries[i..][1..] == entries[i + 1..];
      MapUnionAssoc(acc, EntryBinding(entries[i], "role"), VarsTable(entries[i + 1..], "role"));
      r
  }

  /** `role_vars`: only with roles; a list of entries, each giving the variables of one role. */
  function ParseRoleVars(v: Value, d: Declared, pr: Printer): (r: Result<map<string, Scope>>)
    ensures d.HostsMode? ==> r == Fail("read_config: unexpected role_vars, because roles is not defined")
    ensures d.RolesMode? && !v.List? ==> r == Fail("read_config: role_vars must be list type")
    ensures r.Ok? ==> d.RolesMode? && r.value.Keys <= RoleNames(d.roles.order)
    ensures r.Ok? ==> v.List? && r.value == VarsTable(v.items, "role")
  {
    if d.HostsMode? then Fail("read_config: unexpected role_vars, because roles is not defined")
    else if !v.List? then Fail("read_config: role_vars must be list type")
    else
      assert v.items[0..] == v.items;
      RoleVarsFrom(v.items, 0, d.roles, map[], pr)
  }

  // ---------------------------------------------------------------------------
  // Scopes
  // ---------------------------------------------------------------------------

  /** Layers applied one after another, a later binding replacing an earlier one. */
  function Stack(layers: seq<Scope>): Scope
  {
    if |layers| == 0 then map[] else Stack(layers[..|layers| - 1]) + layers[|layers| - 1]
  }

  /** Reference: the value of `k` in the last layer that binds it. */
  function LastBinding(layers: seq<Scope>, k: string): Option<Value>
  {
    if |layers| == 0 then None
    else if k in layers[|layers| - 1] then Some(layers[|layers| - 1][k])
    else LastBinding(layers[..|layers| - 1], k)
  }

  /** Stacking the layers gives each variable the value of the last layer binding it. */
  lemma {:induction false} StackLastBinding(layers: seq<Scope>, k: string)
    ensures k in Stack(layers) <==> LastBinding(layers, k).Some?
    ensures k in Stack(layers) ==> Stack(layers)[k] == LastBinding(layers, k).value
    decreases |layers|
  {
    if |layers| > 0 {
      StackLastBinding(layers[..|layers| - 1], k);
    }
  }

  /** The `role_vars` layers of a host, one per role of the host that has variables, in role order. */
  function RoleLayers(roles: seq<string>, roleVars: map<string, Scope>): (ls: seq<Scope>)
    ensures |ls| <= |roles|
  {
    if |roles| == 0 then []
    else
      var last := roles[|roles| - 1];
      RoleLayers(roles[..|roles| - 1], roleVars) + (if last in roleVars then [roleVars[last]] else [])
  }

  /**
   * Which layers a host's roles contribute: one role contributes its
   * `role_vars` if it has any and nothing otherwise, and a list of roles
   * contributes those of its parts in order.
   */
  lemma {:induction false} RoleLayersConcat(a: seq<string>, b: seq<string>, roleVars: map<string, Scope>)
    ensures RoleLayers(a + b, roleVars) == RoleLayers(a, roleVars) + RoleLayers(b, roleVars)
    ensures RoleLayers([], roleVars) == []
    ensures |b| == 1 ==> RoleLayers(b, roleVars) == (if b[0] in roleVars then [roleVars[b[0]]] else [])
    decreases |b|
  {
    if |b| == 0 {
      assert a + b == a;
    } else {
      var init := b[..|b| - 1];
      assert (a + b)[..|a + b| - 1] == a + init;
      assert (a + b)[|a + b| - 1] == b[|b| - 1];
      RoleLayersConcat(a, init, roleVars);
      if |b| == 1 {
        assert init == [];
      }
    }
  }

  /** A host's layers: `defaults`, then its roles' `role_vars`, then its `host_vars`. */
  function HostLayers(h: string, defaults: Scope, roles: seq<string>, roleVars: map<string, Scope>,
                      hostVars: map<string, Scope>): seq<Scope>
  {
    [defaults] + RoleLayers(roles, roleVars) + (if h in hostVars then [hostVars[h]] else [])
  }

  /** What `parse_config` leaves behind: `env.hosts`, `env.roledefs`, `conf` and `local_conf`. */
  datatype Inventory = Inventory(
    envHosts: seq<string>,
    roledefs: map<string, seq<string>>,
    conf: map<string, Scope>,
    localConf: Scope)

  function RoleDefs(order: seq<(string, seq<string>)>): (m: map<string, seq<string>>)
    ensures m.Keys == RoleNames(order)
  {
    if |order| == 0 then map[]
    else
      RoleNamesSnoc(order[..|order| - 1], order[|order| - 1]);
      assert order[..|order| - 1] + [order[|order| - 1]] == order;
      RoleDefs(order[..|order| - 1])[order[|order| - 1].0 := order[|order| - 1].1]
  }

  /** `env.roledefs` maps each role to the host list it was declared with. */
  lemma {:induction false} RoleDefsValues(order: seq<(string, seq<string>)>)
    requires DistinctRoles(order)
    ensures forall i :: 0 <= i < |order| ==> order[i].0 in RoleDefs(order) && RoleDefs(order)[order[i].0] == order[i].1
    decreases |order|
  {
    if |order| > 0 {
      var init := order[..|order| - 1];
      assert DistinctRoles(init) by {
        forall a, b | 0 <= a < b < |init| ensures init[a].0 != init[b].0 {
          assert init[a] == order[a] && init[b] == order[b];
        }
      }
      RoleDefsValues(init);
      forall i | 0 <= i < |order| ensures order[i].0 in RoleDefs(order) && RoleDefs(order)[order[i].0] == order[i].1 {
        if i < |order| - 1 {
          assert init[i] == order[i];
        }
      }
    }
  }

  /** The hosts of `env.roledefs` are exactly the hosts the roles name. */
  lemma RoleDefsHosts(t: RoleTable)
    requires Consistent(t) && DistinctRoles(t.order)
    ensures t.hosts == set role, h | role in RoleDefs(t.order) && h in RoleDefs(t.order)[role] :: h
  {
    RoleDefsValues(t.order);
    RoleDefsCover(t.order);
    RoleDefsWithin(t.order);
  }

  lemma RoleDefsCover(order: seq<(string, seq<string>)>)
    requires forall i :: 0 <= i < |order| ==> order[i].0 in RoleDefs(order) && RoleDefs(order)[order[i].0] == order[i].1
    ensures forall h :: h in HostsOf(order) ==> exists role :: role in RoleDefs(order) && h in RoleDefs(order)[role]
  {
    forall h | h in HostsOf(order) ensures exists role :: role in RoleDefs(order) && h in RoleDefs(order)[role] {
      var i, j :| 0 <= i < |order| && 0 <= j < |order[i].1| && order[i].1[j] == h;
      assert h in RoleDefs(order)[order[i].0];
    }
  }

  lemma RoleDefsWithin(order: seq<(string, seq<string>)>)
    requires forall i :: 0 <= i < |order| ==> order[i].0 in RoleDefs(order) && RoleDefs(order)[order[i].0] == order[i].1
    ensures forall role, h :: role in RoleDefs(order) && h in RoleDefs(order)[role] ==> h in HostsOf(order)
  {
    var m := RoleDefs(order);
    forall role, h | role in m && h in m[role] ensures h in HostsOf(order) {
      var i :| 0 <= i < |order| && order[i].0 == role;
      var j :| 0 <= j < |order[i].1| && order[i].1[j] == h;
    }
  }

  /** The roles of a host as the scope loop sees them (none in hosts mode). */
  function RolesOfHost(d: Declared, h: string): seq<string>
  {
    match d
    case HostsMode(_) => []
    case RolesMode(t) => if h in t.hostRoles then t.hostRoles[h] else []
  }

  /** The scope of every declared host, built from its layers. */
  function Scopes(d: Declared, defaults: Scope, roleVars: map<string, Scope>, hostVars: map<string, Scope>): (conf: map<string, Scope>)
    ensures conf.Keys == DeclaredHosts(d)
  {
    map h | h in DeclaredHosts(d) :: Stack(HostLayers(h, defaults, RolesOfHost(d, h), roleVars, hostVars))
  }

  /** The output loops of `parse_config`. */
  function Build(d: Declared, defaults: Scope, roleVars: map<string, Scope>, hostVars: map<string, Scope>,
                 localVars: Scope): (inv: Inventory)
    ensures inv.conf.Keys == DeclaredHosts(d)
    ensures inv.localConf == localVars
    ensures d.HostsMode? ==> inv.envHosts == d.hosts && inv.roledefs == map[]
    ensures d.RolesMode? ==> inv.envHosts == [] && inv.roledefs == RoleDefs(d.roles.order)
  {
    var conf := Scopes(d, defaults, roleVars, hostVars);
    match d
    case HostsMode(hs) => Inventory(hs, map[], conf, localVars)
    case RolesMode(t) => Inventory([], RoleDefs(t.order), conf, localVars)
  }

  /**
   * Precedence: a host's variable comes from its `host_vars` if they bind it,
   * else from the last of its roles (in declaration order) whose `role_vars`
   * bind it, else from `defaults`; a variable none of them binds is absent.
   */
  lemma Precedence(d: Declared, defaults: Scope, roleVars: map<string, Scope>, hostVars: map<string, Scope>,
                   localVars: Scope, h: string, k: string)
    requires h in DeclaredHosts(d)
    ensures var scope := Build(d, defaults, roleVars, hostVars, localVars).conf[h];
      var fromRoles := LastBinding(RoleLayers(RolesOfHost(d, h), roleVars), k);
      && (h in hostVars && k in hostVars[h] ==> k in scope && scope[k] == hostVars[h][k])
      && (!(h in hostVars && k in hostVars[h]) && fromRoles.Some? ==> k in scope && scope[k] == fromRoles.value)
      && (!(h in hostVars && k in hostVars[h]) && fromRoles.None? && k in defaults ==> k in scope && scope[k] == defaults[k])
      && (k in scope <==> (h in hostVars && k in hostVars[h]) || fromRoles.Some? || k in defaults)
  {
    var roles := RoleLayers(RolesOfHost(d, h), roleVars);
    var tail := if h in hostVars then [hostVars[h]] else [];
    var layers := [defaults] + roles + tail;
    StackLastBinding(layers, k);
    LastBindingAppend([defaults], roles, k);
    assert LastBinding([defaults], k) == (if k in defaults then Some(defaults[k]) else None) by {
      assert [defaults][..0] == [];
    }
    if h in hostVars {
      assert layers[..|layers| - 1] == [defaults] + roles;
    } else {
      assert layers == [defaults] + roles;
    }
  }

  /** The last binding over two runs of layers: the second run's, if it has one. */
  lemma {:induction false} LastBindingAppend(a: seq<Scope>, b: seq<Scope>, k: string)
    ensures LastBinding(a + b, k) == if LastBinding(b, k).Some? then LastBinding(b, k) else LastBinding(a, k)
    decreases |b|
  {
    if |b| == 0 {
      assert a + b == a;
    } else {
      assert (a + b)[..|a + b| - 1] == a + b[..|b| - 1];
      LastBindingAppend(a, b[..|b| - 1], k);
    }
  }

  // ---------------------------------------------------------------------------
  // parse_config
  // ---------------------------------------------------------------------------

  /** `defaults` / `local_vars`: an optional dictionary. */
  function OptionalDict(config: seq<(string, Value)>, key: string, wrong: string): (r: Result<Scope>)
    ensures key !in Keys(config) ==> r == Ok(map[])
    ensures key in Keys(config) && !Lookup(config, key).value.Dict? ==> r == Fail(wrong)
    ensures key in Keys(config) && Lookup(config, key).value.Dict? ==> r == Ok(ToMap(Lookup(config, key).value.pairs))
  {
    if key !in Keys(config) then Ok(map[])
    else
      var v := Lookup(config, key).value;
      if !v.Dict? then Fail(wrong) else Ok(ToMap(v.pairs))
  }

  /** The optional sections after `hosts` / `roles`. */
  datatype VarSections = VarSections(hostVars: map<string, Scope>, roleVars: map<string, Scope>, defaults: Scope, localVars: Scope)

  /** Reference: the table section `key` of the document describes, when it is a list. */
  function SectionTable(config: seq<(string, Value)>, key: string, field: string): map<string, Scope>
  {
    match Lookup(config, key)
    case Some(List(entries)) => VarsTable(entries, field)
    case _ => map[]
  }

  /** Reference: the dictionary section `key` of the document holds, when it is one. */
  function DictSection(config: seq<(string, Value)>, key: string): Scope
  {
    match Lookup(config, key)
    case Some(Dict(pairs)) => ToMap(pairs)
    case _ => map[]
  }

  /** Reference: the variable sections as the document states them. */
  function DocSections(config: seq<(string, Value)>): VarSections
  {
    VarSections(SectionTable(config, "host_vars", "host"), SectionTable(config, "role_vars", "role"),
                DictSection(config, "defaults"), DictSection(config, "local_vars"))
  }

  /** Dropping a key other than the variable sections leaves those sections as they were. */
  lemma DocSectionsWithout(config: seq<(string, Value)>, k: string)
    requires k !in {"host_vars", "role_vars", "defaults", "local_vars"}
    ensures DocSections(Without(config, k)) == DocSections(config)
  {
    var c := Without(config, k);
    assert Lookup(c, "host_vars") == Lookup(config, "host_vars");
    assert Lookup(c, "role_vars") == Lookup(config, "role_vars");
    assert Lookup(c, "defaults") == Lookup(config, "defaults");
    assert Lookup(c, "local_vars") == Lookup(config, "local_vars");
  }

  lemma WithoutKeys(config: seq<(string, Value)>, k: string, allowed: set<string>)
    requires Keys(Without(config, k)) <= allowed
    ensures Keys(config) <= allowed + {k}
  {
  }

  /** The optional sections, in the order `parse_config` checks them; any other key is refused. */
  function ParseSections(config: seq<(string, Value)>, d: Declared, pr: Printer): (r: Result<VarSections>)
    ensures r.Ok? ==> r.value.hostVars.Keys <= DeclaredHosts(d)
    ensures r.Ok? && d.HostsMode? ==> r.value.roleVars == map[]
    ensures r.Ok? ==> Keys(config) <= {"host_vars", "role_vars", "defaults", "local_vars"}
    ensures r.Ok? ==> r.value == DocSections(config)
  {
    var hostVars :- HostVarsSection(config, d, pr);
    var c := Without(config, "host_vars");
    var sections :- RoleVarsOnward(c, d, pr);
    WithoutKeys(config, "host_vars", {"role_vars", "defaults", "local_vars"});
    SectionsWithout(config, "host_vars", sections);
    Ok(sections.(hostVars := hostVars))
  }

  /** `host_vars`, when the document has it. */
  function HostVarsSection(config: seq<(string, Value)>, d: Declared, pr: Printer): (r: Result<map<string, Scope>>)
    ensures r.Ok? ==> r.value.Keys <= DeclaredHosts(d) && r.value == SectionTable(config, "host_vars", "host")
  {
    if "host_vars" in Keys(config) then ParseHostVars(Lookup(config, "host_vars").value, d, pr) else Ok(map[])
  }

  /** Sections read from the document without `k` are those of the document. */
  lemma SectionsWithout(config: seq<(string, Value)>, k: string, sections: VarSections)
    requires k == "host_vars" || k == "role_vars"
    requires k == "host_vars" ==> sections.roleVars == SectionTable(Without(config, k), "role_vars", "role")
    requires sections.defaults == DictSection(Without(config, k), "defaults")
    requires sections.localVars == DictSection(Without(config, k), "local_vars")
    ensures k == "host_vars" ==> sections.roleVars == SectionTable(config, "role_vars", "role")
    ensures sections.defaults == DictSection(config, "defaults")
    ensures sections.localVars == DictSection(config, "local_vars")
  {
    var c := Without(config, k);
    assert Lookup(c, "role_vars") == Lookup(config, "role_vars") || k == "role_vars";
    assert Lookup(c, "defaults") == Lookup(config, "defaults");
    assert Lookup(c, "local_vars") == Lookup(config, "local_vars");
  }

  /** `role_vars` and what follows it. */
  function RoleVarsOnward(config: seq<(string, Value)>, d: Declared, pr: Printer): (r: Result<VarSections>)
    ensures r.Ok? && d.HostsMode? ==> r.value.roleVars == map[]
    ensures r.Ok? ==> Keys(config) <= {"role_vars", "defaults", "local_vars"}
    ensures r.Ok? ==> r.value.roleVars == SectionTable(config, "role_vars", "role")
    ensures r.Ok? ==> r.value.defaults == DictSection(config, "defaults")
    ensures r.Ok? ==> r.value.localVars == DictSection(config, "local_vars")
  {
    var roleVars :- RoleVarsSection(config, d, pr);
    var c := Without(config, "role_vars");
    var sections :- DefaultsOnward(c, pr);
    WithoutKeys(config, "role_vars", {"defaults", "local_vars"});
    SectionsWithout(config, "role_vars", sections);
    Ok(sections.(roleVars := roleVars))
  }

  /** `role_vars`, when the document has it. */
  function RoleVarsSection(config: seq<(string, Value)>, d: Declared, pr: Printer): (r: Result<map<string, Scope>>)
    ensures r.Ok? && d.HostsMode? ==> r.value == map[]
    ensures r.Ok? ==> r.value == SectionTable(config, "role_vars", "role")
  {
    if "role_vars" in Keys(config) then ParseRoleVars(Lookup(config, "role_vars").value, d, pr) else Ok(map[])
  }

  /** `defaults`, `local_vars`, and the refusal of any other key. */
  function DefaultsOnward(config: seq<(string, Value)>, pr: Printer): (r: Result<VarSections>)
    ensures r.Ok? ==> Keys(config) <= {"defaults", "local_vars"}
    ensures r.Ok? ==> r.value.hostVars == map[] && r.value.roleVars == map[]
    ensures r.Ok? ==> r.value.defaults == DictSection(config, "defaults")
    ensures r.Ok? ==> r.value.localVars == DictSection(config, "local_vars")
  {
    var defaults :- OptionalDict(config, "defaults", "read_config: defaults must be dictionary type");
    var c1 := Without(config, "defaults");
    assert Lookup(c1, "local_vars") == Lookup(config, "local_vars");
    var localVars :- OptionalDict(c1, "local_vars", "read_config: local_vars must be dictionary type");
    var c2 := Without(c1, "local_vars");
    if |c2| > 0 then Fail("read_config: unexpected config entry:\n\n" + pr.dump(Dict(c2)))
    else
      assert Keys(c2) == {};
      Ok(VarSections(map[], map[], defaults, localVars))
  }

  /** `parse_config` once `hosts` has been checked. */
  function HostsConfig(config: seq<(string, Value)>, v: Value, pr: Printer): (r: Result<Inventory>)
    ensures !v.List? ==> r == Fail("read_config: hosts must be list type")
    ensures v == List([]) ==> r == Fail("read_config: hosts must not be empty")
    ensures r.Ok? ==> v.List? && |v.items| > 0 && HostList(v.items, None).Ok?
    ensures r.Ok? ==> r.value.envHosts == HostList(v.items, None).value && r.value.roledefs == map[]
    ensures r.Ok? ==> r.value.conf.Keys == HostSet(r.value.envHosts)
    ensures r.Ok? ==> var ds := DocSections(config);
      r.value == Build(HostsMode(r.value.envHosts), ds.defaults, ds.roleVars, ds.hostVars, ds.localVars)
  {
    if !v.List? then Fail("read_config: hosts must be list type")
    else if |v.items| == 0 then Fail("read_config: hosts must not be empty")
    else
      var hosts :- HostList(v.items, None);
      var sections :- ParseSections(Without(config, "hosts"), HostsMode(hosts), pr);
      DocSectionsWithout(config, "hosts");
      Ok(Build(HostsMode(hosts), sections.defaults, sections.roleVars, sections.hostVars, sections.localVars))
  }

  /** `parse_config` once `roles` has been checked. */
  function RolesConfig(config: seq<(string, Value)>, v: Value, pr: Printer): (r: Result<Inventory>)
    ensures r.Ok? ==> r.value.envHosts == []
    ensures r.Ok? ==> r.value.conf.Keys == set role, h | role in r.value.roledefs && h in r.value.roledefs[role] :: h
    ensures r.Ok? ==> var ds := DocSections(config);
      && ParseRoles(v, pr).Ok?
      && r.value == Build(RolesMode(ParseRoles(v, pr).value), ds.defaults, ds.roleVars, ds.hostVars, ds.localVars)
  {
    var t :- ParseRoles(v, pr);
    var sections :- ParseSections(Without(config, "roles"), RolesMode(t), pr);
    DocSectionsWithout(config, "roles");
    RoleDefsHosts(t);
    Ok(Build(RolesMode(t), sections.defaults, sections.roleVars, sections.hostVars, sections.localVars))
  }

  /** Exactly one of `hosts` and `roles`; the result says whether it is `hosts`. */
  function Mode(hasHosts: bool, hasRoles: bool): (r: Result<bool>)
    ensures r.Ok? <==> hasHosts != hasRoles
    ensures r.Ok? ==> r.value == hasHosts
    ensures hasHosts && hasRoles ==> r == Fail("read_config: hosts and roles can't be simultaneously defined in config")
    ensures !hasHosts && !hasRoles ==> r == Fail("read_config: hosts or roles must be defined in config")
  {
    if hasHosts && hasRoles then Fail("read_config: hosts and roles can't be simultaneously defined in config")
    else if !hasHosts && !hasRoles then Fail("read_config: hosts or roles must be defined in config")
    else Ok(hasHosts)
  }

  /**
   * `parse_config` on the loaded document: exactly one of `hosts` and `roles`,
   * then the checks of each section in turn, then one scope per host.
   */
  function ParseConfig(config: Value, pr: Printer): (r: Result<Inventory>)
    ensures config.Null? || config.Bool? || config.Int? ==> r == Raise("TypeError")
    ensures r.Ok? ==> config.Dict?
    ensures r.Ok? ==> r.value.conf.Keys == DocHosts(config.pairs)
    ensures r.Ok? ==> r.value.localConf == DictSection(config.pairs, "local_vars")
  {
    var hasHosts :- Contains(config, "hosts");
    // the first test has ruled out the containers `in` rejects
    var hasRoles := Contains(config, "roles").value;
    var hostsMode :- Mode(hasHosts, hasRoles);
    var v :- Item(config, if hostsMode then "hosts" else "roles");
    var r := if hostsMode then HostsConfig(config.pairs, v, pr) else RolesConfig(config.pairs, v, pr);
    if hostsMode && r.Ok? then
      HostSetOfStrings(v.items);
      r
    else r
  }

  /** Reference: the hosts a document declares, in its `hosts` list or in the host lists of its roles. */
  function DocHosts(config: seq<(string, Value)>): set<string>
  {
    match Lookup(config, "hosts")
    case Some(List(items)) => set v | v in items && v.Str? :: v.s
    case _ =>
      match Lookup(config, "roles")
      case Some(List(entries)) => HostsOf(RoleDecls(entries))
      case _ => {}
  }

  /** Reference: the roles a document gives host `h`, in declaration order; none without `roles`. */
  function DocHostRoles(config: seq<(string, Value)>, h: string): seq<string>
  {
    match Lookup(config, "roles")
    case Some(List(entries)) => RolesOf(RoleDecls(entries), h)
    case _ => []
  }

  lemma HostSetOfStrings(items: seq<Value>)
    requires forall j :: 0 <= j < |items| ==> items[j].Str?
    ensures HostSet(Strings(items)) == set v | v in items && v.Str? :: v.s
  {
    var hs := Strings(items);
    forall h | h in hs ensures h in set v | v in items && v.Str? :: v.s {
      var j :| 0 <= j < |hs| && hs[j] == h;
      assert items[j] in items;
    }
    forall v | v in items && v.Str? ensures v.s in hs {
      var j :| 0 <= j < |items| && items[j] == v;
      assert hs[j] == v.s;
    }
  }

  /**
   * The layering of `parse_config` stated over the document itself: a host's
   * variable comes from the document's `host_vars` entry for the host if that
   * binds it, else from the last of the host's roles (in the order the
   * document declares them) whose `role_vars` entry binds it, else from
   * `defaults`; a variable none of them binds is absent.
   */
  lemma ParseConfigPrecedence(config: Value, pr: Printer, h: string, k: string)
    requires ParseConfig(config, pr).Ok?
    requires h in ParseConfig(config, pr).value.conf
    ensures var scope := ParseConfig(config, pr).value.conf[h];
      var ds := DocSections(config.pairs);
      var fromHost := h in ds.hostVars && k in ds.hostVars[h];
      var fromRoles := LastBinding(RoleLayers(DocHostRoles(config.pairs, h), ds.roleVars), k);
      && (fromHost ==> k in scope && scope[k] == ds.hostVars[h][k])
      && (!fromHost && fromRoles.Some? ==> k in scope && scope[k] == fromRoles.value)
      && (!fromHost && fromRoles.None? && k in ds.defaults ==> k in scope && scope[k] == ds.defaults[k])
      && (k in scope <==> fromHost || fromRoles.Some? || k in ds.defaults)
  {
    var pairs := config.pairs;
    var ds := DocSections(pairs);
    var inv := ParseConfig(config, pr).value;
    ParseConfigModes(pairs, pr);
    if "hosts" in Keys(pairs) && "roles" !in Keys(pairs) {
      var v := Lookup(pairs, "hosts").value;
      assert inv == Build(HostsMode(inv.envHosts), ds.defaults, ds.roleVars, ds.hostVars, ds.localVars);
      assert DocHostRoles(pairs, h) == [];
      Precedence(HostsMode(inv.envHosts), ds.defaults, ds.roleVars, ds.hostVars, ds.localVars, h, k);
    } else if "roles" in Keys(pairs) && "hosts" !in Keys(pairs) {
      var v := Lookup(pairs, "roles").value;
      var t := ParseRoles(v, pr).value;
      assert inv == Build(RolesMode(t), ds.defaults, ds.roleVars, ds.hostVars, ds.localVars);
      assert RolesOfHost(RolesMode(t), h) == DocHostRoles(pairs, h);
      Precedence(RolesMode(t), ds.defaults, ds.roleVars, ds.hostVars, ds.localVars, h, k);
    } else {
      ParseConfigModeErrors(pairs, pr);
    }
  }

  /** On a dictionary, `hosts` and `roles` together, or neither, is refused. */
  lemma ParseConfigModeErrors(pairs: seq<(string, Value)>, pr: Printer)
    ensures "hosts" in Keys(pairs) && "roles" in Keys(pairs) ==>
      ParseConfig(Dict(pairs), pr) == Fail("read_config: hosts and roles can't be simultaneously defined in config")
    ensures "hosts" !in Keys(pairs) && "roles" !in Keys(pairs) ==>
      ParseConfig(Dict(pairs), pr) == Fail("read_config: hosts or roles must be defined in config")
  {
    var hasHosts, hasRoles := "hosts" in Keys(pairs), "roles" in Keys(pairs);
    assert Contains(Dict(pairs), "hosts") == Ok(hasHosts);
    assert Contains(Dict(pairs), "roles") == Ok(hasRoles);
    var m := Mode(hasHosts, hasRoles);
    if m.Err? {
      assert ParseConfig(Dict(pairs), pr) == Err(m.error);
    }
  }

  /** On a dictionary, whichever of `hosts` and `roles` is present selects how the hosts are declared. */
  lemma ParseConfigModes(pairs: seq<(string, Value)>, pr: Printer)
    ensures "hosts" in Keys(pairs) && "roles" !in Keys(pairs) ==>
      ParseConfig(Dict(pairs), pr) == HostsConfig(pairs, Lookup(pairs, "hosts").value, pr)
    ensures "roles" in Keys(pairs) && "hosts" !in Keys(pairs) ==>
      ParseConfig(Dict(pairs), pr) == RolesConfig(pairs, Lookup(pairs, "roles").value, pr)
  {
  }

  /** A document rest holding only `defaults` gives those defaults and no other section. */
  lemma DefaultsOnlySections(defaults: seq<(string, Value)>, d: Declared, pr: Printer)
    ensures ParseSections([("defaults", Dict(defaults))], d, pr) == Ok(VarSections(map[], map[], ToMap(defaults), map[]))
  {
    var rest := [("defaults", Dict(defaults))];
    assert rest[..0] == [];
    assert Keys(rest) == {"defaults"} by {
      assert rest[0].0 == "defaults";
    }
    assert Without(rest, "host_vars") == rest;
    assert Without(rest, "role_vars") == rest;
    assert Without(rest, "defaults") == [];
  }

  /** A host with neither roles nor `host_vars` has the defaults as its scope. */
  lemma DefaultsScope(h: string, defaults: Scope)
    ensures Stack(HostLayers(h, defaults, [], map[], map[])) == defaults
  {
    assert HostLayers(h, defaults, [], map[], map[]) == [defaults];
    assert [defaults][..0] == [];
  }

  /** The `hosts` document of `ParseConfigAcceptsHosts`, once `hosts` has been picked out. */
  lemma HostsConfigDefaults(items: seq<Value>, defaults: seq<(string, Value)>, pr: Printer)
    requires |items| > 0 && HostList(items, None).Ok?
    ensures HostsConfig([("hosts", List(items)), ("defaults", Dict(defaults))], List(items), pr)
      == Ok(Build(HostsMode(HostList(items, None).value), ToMap(defaults), map[], map[], map[]))
  {
    var pairs := [("hosts", List(items)), ("defaults", Dict(defaults))];
    assert pairs[..1][..0] == [];
    assert Without(pairs[..1], "hosts") == [];
    assert Without(pairs, "hosts") == [pairs[1]];
    DefaultsOnlySections(defaults, HostsMode(HostList(items, None).value), pr);
  }

  /**
   * A document with an acceptable `hosts` list and `defaults` is accepted:
   * the hosts in document order, each with the defaults as its scope.
   */
  lemma ParseConfigAcceptsHosts(items: seq<Value>, defaults: seq<(string, Value)>, pr: Printer)
    requires |items| > 0 && HostList(items, None).Ok?
    ensures var r := ParseConfig(Dict([("hosts", List(items)), ("defaults", Dict(defaults))]), pr);
      && r.Ok? && r.value.envHosts == Strings(items) && r.value.localConf == map[]
      && forall h :: h in r.value.conf ==> r.value.conf[h] == ToMap(defaults)
  {
    var pairs := [("hosts", List(items)), ("defaults", Dict(defaults))];
    assert pairs[..1][..0] == [];
    assert Keys(pairs) == {"hosts", "defaults"} by {
      assert pairs[0].0 == "hosts" && pairs[1].0 == "defaults";
    }
    ParseConfigModes(pairs, pr);
    HostsConfigDefaults(items, defaults, pr);
    DefaultsOnlyBuild(HostList(items, None).value, ToMap(defaults));
  }

  /** With only `defaults`, every declared host gets the defaults as its scope. */
  lemma DefaultsOnlyBuild(hs: seq<string>, defaults: Scope)
    ensures var conf := Build(HostsMode(hs), defaults, map[], map[], map[]).conf;
      forall h :: h in conf ==> conf[h] == defaults
  {
    var conf := Build(HostsMode(hs), defaults, map[], map[], map[]).conf;
    forall h | h in conf ensures conf[h] == defaults {
      DefaultsScope(h, defaults);
    }
  }

  /** A document whose only key is an acceptable `roles` list is accepted, with the roles' hosts. */
  lemma ParseConfigAcceptsRoles(v: Value, pr: Printer)
    requires ParseRoles(v, pr).Ok?
    ensures var r := ParseConfig(Dict([("roles", v)]), pr);
      && r.Ok? && r.value.envHosts == [] && r.value.conf.Keys == ParseRoles(v, pr).value.hosts
  {
    var pairs := [("roles", v)];
    assert pairs[..0] == [];
    assert Keys(pairs) == {"roles"} by {
      assert pairs[0].0 == "roles";
    }
    ParseConfigModes(pairs, pr);
    assert Without(pairs, "roles") == [];
  }

  // ---------------------------------------------------------------------------
  // read_config
  // ---------------------------------------------------------------------------

  /** Whether `s` ends with `suffix`. */
  predicate EndsWith(s: string, suffix: string)
  {
    |suffix| <= |s| && s[|s| - |suffix|..] == suffix
  }

  lemma PathJoinEndsWith(a: string, b: string)
    ensures EndsWith(PathJoin(a, b), b)
  {
    var r := PathJoin(a, b);
    if !IsAbs(b) {
      assert r[|r| - |b|..] == b;
    }
  }

  lemma EndsWithTrans(s: string, mid: string, suffix: string)
    requires EndsWith(s, mid) && EndsWith(mid, suffix)
    ensures EndsWith(s, suffix)
  {
    assert s[|s| - |suffix|..] == s[|s| - |mid|..][|mid| - |suffix|..];
  }

  /** What `dirname` returns is empty, all slashes, or does not end in a slash. */
  lemma DirnameShape(p: string)
    ensures var d := Dirname(p); |d| == 0 || AllSlashes(d) || d[|d| - 1] != '/'
  {
  }

  /** `basename` never holds a slash. */
  lemma BasenameNoSlash(p: string)
    ensures '/' !in Basename(p)
  {
    var i := RFind(p, '/');
    var b := p[i + 1..];
    forall j | 0 <= j < |b| ensures b[j] != '/' {
      assert b[j] == p[i + 1 + j];
    }
  }

  /** Neither does the root `splitext` takes from a name without a slash. */
  lemma RootNoSlash(b: string)
    requires '/' !in b
    ensures '/' !in Splitext(b).0
  {
    var parts := Splitext(b);
    assert parts.0 + parts.1 == b;
    forall j | 0 <= j < |parts.0| ensures parts.0[j] != '/' {
      assert parts.0[j] == b[j];
    }
  }

  /** The default configuration file: the fabfile's directory, and its stem plus `.yaml` as the name. */
  lemma DefaultConfigPath(fabfile: string)
    ensures var dir, name := Dirname(fabfile), Splitext(Basename(fabfile)).0 + ".yaml";
      && Dirname(PathJoin(dir, name)) == dir
      && Basename(PathJoin(dir, name)) == name
      && EndsWith(PathJoin(dir, name), ".yaml")
  {
    var dir := Dirname(fabfile);
    var stem := Splitext(Basename(fabfile)).0;
    DirnameShape(fabfile);
    BasenameNoSlash(fabfile);
    RootNoSlash(Basename(fabfile));
    YamlName(dir, stem);
  }

  /** The `.yaml` file named after `stem` in directory `dir`. */
  lemma YamlName(dir: string, stem: string)
    requires |dir| == 0 || AllSlashes(dir) || dir[|dir| - 1] != '/'
    requires '/' !in stem
    ensures Dirname(PathJoin(dir, stem + ".yaml")) == dir
    ensures Basename(PathJoin(dir, stem + ".yaml")) == stem + ".yaml"
    ensures EndsWith(PathJoin(dir, stem + ".yaml"), ".yaml")
  {
    var name := stem + ".yaml";
    assert '/' !in name by {
      forall j | 0 <= j < |name| ensures name[j] != '/' {
        if j < |stem| {
          assert name[j] == stem[j];
        }
      }
    }
    JoinFileName(dir, name);
    PathJoinEndsWith(dir, name);
    EndsWithTrans(PathJoin(dir, name), name, ".yaml");
  }

  /**
   * Joining a directory as `dirname` returns it with a plain file name gives a
   * path whose `dirname` is that directory and whose `basename` is that name.
   */
  lemma JoinFileName(dir: string, name: string)
    requires |dir| == 0 || AllSlashes(dir) || dir[|dir| - 1] != '/'
    requires '/' !in name
    ensures Dirname(PathJoin(dir, name)) == dir
    ensures Basename(PathJoin(dir, name)) == name
  {
    var p := PathJoin(dir, name);
    assert !IsAbs(name);
    var i := RFind(p, '/');
    if |dir| == 0 {
      assert p == name;
      assert i == -1;
      assert p[..0] == [];
    } else if dir[|dir| - 1] == '/' {
      assert p == dir + name;
      assert p[|dir| - 1] == '/';
      assert forall j :: |dir| <= j < |p| ==> p[j] == name[j - |dir|];
      assert i == |dir| - 1;
      assert p[..i + 1] == dir;
      assert p[i + 1..] == name;
    } else {
      assert p == dir + "/" + name;
      assert p[|dir|] == '/';
      assert forall j :: |dir| < j < |p| ==> p[j] == name[j - |dir| - 1];
      assert i == |dir|;
      var head := p[..i + 1];
      assert head == dir + "/";
      assert !AllSlashes(head) by {
        assert head[|dir| - 1] != '/';
      }
      assert head[..|head| - 1] == dir;
      assert StripRight(head, {'/'}) == dir;
      assert p[i + 1..] == name;
    }
  }

  /** `os.path.join(a, b)` for a relative `b`: `a`, a slash unless `a` is empty or ends in one, then `b`. */
  lemma JoinRelative(a: string, b: string)
    requires !IsAbs(b)
    ensures StartsWith(PathJoin(a, b), a) && EndsWith(PathJoin(a, b), b)
    ensures |PathJoin(a, b)| == |a| + |b| + (if |a| == 0 || a[|a| - 1] == '/' then 0 else 1)
  {
    PathJoinEndsWith(a, b);
  }

  /**
   * The configuration file: next to the fabfile with the extension replaced by
   * `.yaml`, or the argument, taken relative to the fabfile's directory unless
   * it is absolute.
   */
  function ConfigPath(fabfile: string, argument: Option<string>): (p: string)
    ensures argument.None? ==> Dirname(p) == Dirname(fabfile)
    ensures argument.None? ==> Basename(p) == Splitext(Basename(fabfile)).0 + ".yaml"
    ensures argument.None? ==> EndsWith(p, ".yaml")
    ensures argument.Some? ==> EndsWith(p, argument.value)
    ensures argument.Some? && IsAbs(argument.value) ==> p == argument.value
    ensures argument.Some? && !IsAbs(argument.value) ==> var dir := Dirname(fabfile);
      && StartsWith(p, dir)
      && |p| == |dir| + |argument.value| + (if |dir| == 0 || dir[|dir| - 1] == '/' then 0 else 1)
  {
    match argument
    case None =>
      DefaultConfigPath(fabfile);
      PathJoin(Dirname(fabfile), Splitext(Basename(fabfile)).0 + ".yaml")
    case Some(a) =>
      if IsAbs(a) then a
      else
        JoinRelative(Dirname(fabfile), a);
        PathJoin(Dirname(fabfile), a)
  }

  /**
   * `read_config`: nothing without a fabfile; nothing when the default file is
   * missing, an abort when a named one is; otherwise the file is read, loaded
   * (`load` stands for the YAML parser) and checked.
   */
  function ReadConfig(realFabfile: Option<string>, argument: Option<string>, fs: FileSystem,
                      load: string -> Result<Value>, pr: Printer): (r: Result<Option<Inventory>>)
    ensures realFabfile.None? ==> r == Ok(None)
    ensures realFabfile.Some? && !IsFile(fs, ConfigPath(realFabfile.value, argument)) ==>
      r == if argument.None? then Ok(None)
           else Fail("read_config: config '" + ConfigPath(realFabfile.value, argument) + "' not exists")
    ensures r.Ok? && r.value.Some? <==>
      && realFabfile.Some?
      && IsFile(fs, ConfigPath(realFabfile.value, argument))
      && var content := Stat(fs, ConfigPath(realFabfile.value, argument)).entry.content;
         load(content).Ok? && ParseConfig(load(content).value, pr).Ok?
    ensures r.Ok? && r.value.Some? ==>
      var content := Stat(fs, ConfigPath(realFabfile.value, argument)).entry.content;
      r.value.value == ParseConfig(load(content).value, pr).value
  {
    match realFabfile
    case None => Ok(None)
    case Some(f) =>
      var path := ConfigPath(f, argument);
      if !IsFile(fs, path) then
        if argument.None? then Ok(None) else Fail("read_config: config '" + path + "' not exists")
      else
        var text := ReadLocalFile(fs, path, true).value.value;
        var config :- load(text);
        var inv :- ParseConfig(config, pr);
        Ok(Some(inv))
  }

  // ---------------------------------------------------------------------------
  // conf: the scope of the current host
  // ---------------------------------------------------------------------------

  /**
   * The names ordinary attribute lookup resolves on a `_ConfAttributeDict`
   * before `__getattr__` is consulted: the attributes of Python 2.7's `dict`
   * (and `object`), and those the class itself defines.
   */
  const DictAttributes: set<string> := {
    "__class__", "__cmp__", "__contains__", "__delattr__", "__delitem__", "__doc__", "__eq__",
    "__format__", "__ge__", "__getattribute__", "__getitem__", "__gt__", "__hash__", "__init__",
    "__iter__", "__le__", "__len__", "__lt__", "__ne__", "__new__", "__reduce__", "__reduce_ex__",
    "__repr__", "__setattr__", "__setitem__", "__sizeof__", "__str__", "__subclasshook__",
    "clear", "copy", "fromkeys", "get", "has_key", "items", "iteritems", "iterkeys", "itervalues",
    "keys", "pop", "popitem", "setdefault", "update", "values", "viewitems", "viewkeys", "viewvalues",
    "__dict__", "__module__", "__weakref__", "__getattr__", "__nonzero__",
    "super__getitem__", "super__setitem__"}

  /** What `conf.key` evaluates to: a variable of the current host, or an attribute of the `dict` itself. */
  datatype Attribute = Variable(value: Value) | DictAttribute(name: string)

  /**
   * `conf.key`: a name the `dict` itself has (`items`, `get`, …) is found by
   * ordinary lookup and never reaches `__getattr__`; any other name is the
   * variable of the current host, `AttributeError` when there is none.
   */
  function ConfGetAttr(conf: map<string, Scope>, host: Option<string>, key: string): (r: Result<Attribute>)
    ensures key in DictAttributes ==> r == Ok(DictAttribute(key))
    ensures key !in DictAttributes ==> (r.Ok? <==> host.Some? && host.value in conf && key in conf[host.value])
    ensures key !in DictAttributes && r.Ok? ==> r.value == Variable(conf[host.value][key])
    ensures r.Err? ==> r == Raise("AttributeError")
  {
    if key in DictAttributes then Ok(DictAttribute(key))
    else if host.Some? && host.value in conf && key in conf[host.value] then Ok(Variable(conf[host.value][key]))
    else Raise("AttributeError")
  }

  /**
   * `conf[key]`: `__getitem__` is overridden, so every key reads the current
   * host's variable, and a missing host or variable raises `KeyError`.
   * Except for the `dict`'s own attribute names, it agrees with `conf.key`.
   */
  function ConfGetItem(conf: map<string, Scope>, host: Option<string>, key: string): (r: Result<Value>)
    ensures r.Ok? <==> host.Some? && host.value in conf && key in conf[host.value]
    ensures key !in DictAttributes ==> (r.Ok? <==> ConfGetAttr(conf, host, key).Ok?)
    ensures key !in DictAttributes && r.Ok? ==> ConfGetAttr(conf, host, key) == Ok(Variable(r.value))
    ensures r.Err? ==> r == Raise("KeyError")
  {
    if host.Some? && host.value in conf && key in conf[host.value] then Ok(conf[host.value][key])
    else Raise("KeyError")
  }

  /**
   * `conf.key = value` and `conf[key] = value`: both are overridden, so both
   * bind in the current host's scope, whatever the name.
   */
  function ConfSet(conf: map<string, Scope>, host: Option<string>, key: string, value: Value): (r: Result<map<string, Scope>>)
    ensures r.Ok? <==> host.Some? && host.value in conf
    ensures r.Err? ==> r == Raise("KeyError")
    ensures r.Ok? ==> r.value.Keys == conf.Keys
  {
    if host.Some? && host.value in conf then Ok(conf[host.value := conf[host.value][key := value]])
    else Raise("KeyError")
  }

  /**
   * A binding through `conf` is seen by the next `conf[key]` on the same host,
   * and by `conf.key` unless `key` is one of the `dict`'s own attributes,
   * which `conf.key` still resolves to; no other host or variable changes.
   */
  lemma ConfSetIsolated(conf: map<string, Scope>, host: Option<string>, key: string, value: Value,
                        other: Option<string>, otherKey: string)
    requires ConfSet(conf, host, key, value).Ok?
    ensures ConfGetItem(ConfSet(conf, host, key, value).value, host, key) == Ok(value)
    ensures key !in DictAttributes ==> ConfGetAttr(ConfSet(conf, host, key, value).value, host, key) == Ok(Variable(value))
    ensures key in DictAttributes ==> ConfGetAttr(ConfSet(conf, host, key, value).value, host, key) == Ok(DictAttribute(key))
    ensures other != host || otherKey != key ==>
      && ConfGetItem(ConfSet(conf, host, key, value).value, other, otherKey) == ConfGetItem(conf, other, otherKey)
      && ConfGetAttr(ConfSet(conf, host, key, value).value, other, otherKey) == ConfGetAttr(conf, other, otherKey)
  {
  }
}
