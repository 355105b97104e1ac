/**
 * Permission flags. A `Modes` value is a set of single-character flags; the
 * per-guild permissions table maps a user or role id to a tag and the flags
 * granted to it (stored as a string); `check_perms` lets administrators
 * through and otherwise checks the union of the flags granted to the member
 * and to every role the member holds.
 */
module Perms {
  import opened Wrappers
  import opened Text

  // ---------------------------------------------------------------------------
  // Flag sets as values: the specification of `Modes`.
  // ---------------------------------------------------------------------------

  /** The distinct characters of `s`, as `Modes::from_str` collects them. */
  function CharsOf(s: string): (r: set<char>)
    ensures forall c :: c in r <==> c in s
    ensures |r| <= |s|
  {
    CharsOfSize(s);
    set c | c in s
  }

  predicate NoRepeats(s: string)
  {
    forall i, j :: 0 <= i < j < |s| ==> s[i] != s[j]
  }

  predicate IsAscii(s: string)
  {
    forall i :: 0 <= i < |s| ==> s[i] as int < 0x80
  }

  /** Bytes taken by one character in UTF-8. */
  function Utf8Width(c: char): nat
  {
    if c as int < 0x80 then 1
    else if c as int < 0x800 then 2
    else if c as int < 0x1_0000 then 3
    else 4
  }

  /** `str::len`: the length of `s` in UTF-8 bytes. */
  function Utf8Len(s: string): nat
  {
    if s == [] then 0 else Utf8Width(s[0]) + Utf8Len(s[1..])
  }

  /**
   * What `Modes::check` computes: the number of flags of the set that occur
   * in `x` equals the byte length of `x`.
   */
  predicate CheckFlags(flags: set<char>, x: string)
  {
    |set c | c in flags && c in x| == Utf8Len(x)
  }

  lemma {:induction false} CharsOfSize(s: string)
    ensures |set c | c in s| <= |s|
    ensures |set c | c in s| == |s| <==> NoRepeats(s)
  {
    if s != [] {
      var t := s[1..];
      CharsOfSize(t);
      var cs, ct := set c | c in s, set c | c in t;
      assert cs == {s[0]} + ct;
      if s[0] in t {
        assert cs == ct;
        var j :| 0 <= j < |t| && t[j] == s[0];
        assert s[0] == s[j + 1];
      } else {
        assert |cs| == |ct| + 1;
        assert NoRepeats(s) <==> NoRepeats(t) by {
          if NoRepeats(t) {
            forall i, j | 0 <= i < j < |s| ensures s[i] != s[j] {
              if i == 0 { assert s[j] == t[j - 1]; }
              else { assert s[i] == t[i - 1] && s[j] == t[j - 1]; }
            }
          }
          if NoRepeats(s) {
            forall i, j | 0 <= i < j < |t| ensures t[i] != t[j] {
              assert t[i] == s[i + 1] && t[j] == s[j + 1];
            }
          }
        }
      }
    }
  }

  lemma {:induction false} Utf8LenBound(s: string)
    ensures |s| <= Utf8Len(s)
    ensures Utf8Len(s) == |s| <==> IsAscii(s)
  {
    if s != [] {
      Utf8LenBound(s[1..]);
      assert IsAscii(s) <==> s[0] as int < 0x80 && IsAscii(s[1..]) by {
        if s[0] as int < 0x80 && IsAscii(s[1..]) {
          forall i | 0 <= i < |s| ensures s[i] as int < 0x80 {
            if i > 0 { assert s[i] == s[1..][i - 1]; }
          }
        }
      }
    }
  }

  lemma SubsetSize(a: set<char>, b: set<char>)
    requires a <= b
    ensures |a| <= |b|
    ensures |a| == |b| ==> a == b
  {
    assert b == a + (b - a);
    assert a * (b - a) == {};
    assert |b| == |a| + |b - a|;
    if |a| == |b| {
      assert |b - a| == 0;
      assert b - a == {};
    }
  }

  /**
   * `check` is true exactly when `x` is plain ASCII, has no repeated
   * character, and every character of `x` is a flag of the set.
   */
  lemma CheckFlagsMeaning(flags: set<char>, x: string)
    ensures CheckFlags(flags, x) <==> IsAscii(x) && NoRepeats(x) && CharsOf(x) <= flags
  {
    var found := set c | c in flags && c in x;
    var chars := CharsOf(x);
    assert found == flags * chars;
    SubsetSize(found, chars);
    CharsOfSize(x);
    Utf8LenBound(x);
    if CheckFlags(flags, x) {
      assert |found| == |chars| == |x| == Utf8Len(x);
      assert chars <= flags;
    }
    if IsAscii(x) && NoRepeats(x) && chars <= flags {
      assert found == chars;
    }
  }

  /** The empty requirement always passes; a repeated character never does. */
  lemma CheckEdgeCases(flags: set<char>, x: string)
    ensures CheckFlags(flags, "")
    ensures !NoRepeats(x) ==> !CheckFlags(flags, x)
  {
    assert (set c | c in flags && c in "") == {};
    CheckFlagsMeaning(flags, x);
  }

  /** More flags never turn a pass into a failure. */
  lemma CheckFlagsMonotone(fewer: set<char>, more: set<char>, x: string)
    requires fewer <= more
    requires CheckFlags(fewer, x)
    ensures CheckFlags(more, x)
  {
    CheckFlagsMeaning(fewer, x);
    CheckFlagsMeaning(more, x);
  }

  /** The module's own unit tests, over the flags "abcd". */
  lemma CheckExamples()
    ensures CheckFlags({'a', 'b', 'c', 'd'}, "a")
    ensures !CheckFlags({'a', 'b', 'c', 'd'}, "e")
    ensures CheckFlags({'a', 'b', 'c', 'd'}, "ad")
    ensures !CheckFlags({'a', 'b', 'c', 'd'}, "ae")
  {
    var abcd := {'a', 'b', 'c', 'd'};
    CheckFlagsMeaning(abcd, "a");
    CheckFlagsMeaning(abcd, "e");
    CheckFlagsMeaning(abcd, "ad");
    CheckFlagsMeaning(abcd, "ae");
    assert 'e' in CharsOf("ae");
  }

  // ---------------------------------------------------------------------------
  // `Modes`: a flag set updated in place.
  // ---------------------------------------------------------------------------

  class Modes {
    var flags: set<char>

    /** `Modes::new`. */
    constructor Empty()
      ensures flags == {}
    {
      flags := {};
    }

    /** `Modes::from_str`: the distinct characters of `s`. */
    constructor FromStr(s: string)
      ensures flags == CharsOf(s)
    {
      flags := CharsOf(s);
    }

    /** `Modes::extend`: add every flag of `x`. */
    method Extend(x: Modes)
      modifies this
      ensures flags == old(flags) + old(x.flags)
    {
      flags := flags + x.flags;
    }

    /** `Modes::check`. */
    predicate Check(x: string)
      reads this
      ensures Check(x) <==> IsAscii(x) && NoRepeats(x) && CharsOf(x) <= flags
    {
      CheckFlagsMeaning(flags, x);
      CheckFlags(flags, x)
    }

    /**
     * `Modes::to_string`: the flags as a string, one character each, in
     * whatever order the set yields them. Parsing the result back with
     * `from_str` gives the same set.
     */
    method ToString() returns (s: string)
      ensures CharsOf(s) == flags
      ensures NoRepeats(s)
      ensures |s| == |flags|
    {
      s := "";
      var rest := flags;
      while rest != {}
        invariant rest <= flags
        invariant CharsOf(s) == flags - rest
        invariant NoRepeats(s)
        decreases rest
      {
        var c :| c in rest;
        s := s + [c];
        rest := rest - {c};
      }
      CharsOfSize(s);
    }
  }

  // ---------------------------------------------------------------------------
  // The per-guild permissions tables.
  // ---------------------------------------------------------------------------

  /** A stored row: the tag and the flags serialised as a string. */
  datatype Row = Row(tag: string, modes: string)

  /** A row as read back, with its flags parsed. */
  datatype PermsEntry = PermsEntry(id: u64, tag: string, modes: Modes)

  datatype DbError = QueryReturnedNoRows

  class PermsDb {
    /** Guild id -> (user or role id -> row). */
    var tables: map<u64, map<u64, Row>>

    constructor()
      ensures tables == map[]
    {
      tables := map[];
    }

    /** `sql::table`: the guild's table, created empty if it did not exist. */
    method Table(guild: u64)
      modifies this
      ensures tables == if guild in old(tables) then old(tables) else old(tables)[guild := map[]]
    {
      if guild !in tables {
        var empty: map<u64, Row> := map[];
        tables := tables[guild := empty];
      }
    }

    /** `sql::get_perms`: the row for `id`, flags parsed, or an error if there is none. */
    method GetPerms(guild: u64, id: u64) returns (r: Result<PermsEntry, DbError>)
      requires guild in tables
      ensures r.Ok? <==> id in tables[guild]
      ensures r.Ok? ==>
        && r.value.id == id
        && r.value.tag == tables[guild][id].tag
        && r.value.modes.flags == CharsOf(tables[guild][id].modes)
        && fresh(r.value.modes)
    {
      if id in tables[guild] {
        var row := tables[guild][id];
        var modes := new Modes.FromStr(row.modes);
        r := Ok(PermsEntry(id, row.tag, modes));
      } else {
        r := Err(QueryReturnedNoRows);
      }
    }

    /**
     * `sql::set_perms`: insert the row for `id`, or replace its tag and
     * flags if it exists. The flags are stored as `mode.to_string()`.
     */
    method SetPerms(guild: u64, id: u64, tag: string, mode: Modes)
      requires guild in tables
      modifies this
      ensures guild in tables && id in tables[guild]
      ensures tables == old(tables)[guild := old(tables[guild])[id := Row(tag, tables[guild][id].modes)]]
      ensures CharsOf(tables[guild][id].modes) == mode.flags
    {
      var s := mode.ToString();
      var updated: map<u64, Row> := tables[guild][id := Row(tag, s)];
      tables := tables[guild := updated];
    }

    /** `sql::del_perms`: remove the row for `id`, if any. */
    method DelPerms(guild: u64, id: u64)
      requires guild in tables
      modifies this
      ensures tables == old(tables)[guild := old(tables[guild]) - {id}]
    {
      var remaining: map<u64, Row> := tables[guild] - {id};
      tables := tables[guild := remaining];
    }
  }

  /** Storing flags and reading them back gives the same flags, tag and id. */
  method SetThenGet(db: PermsDb, guild: u64, id: u64, tag: string, mode: Modes) returns (e: PermsEntry)
    requires guild in db.tables
    modifies db
    ensures e.id == id && e.tag == tag && e.modes.flags == mode.flags
  {
    db.SetPerms(guild, id, tag, mode);
    var r := db.GetPerms(guild, id);
    e := r.value;
  }

  // ---------------------------------------------------------------------------
  // check_perms
  // ---------------------------------------------------------------------------

  /** Flags granted to `id` directly; an id without a row is granted nothing. */
  function Granted(rows: map<u64, Row>, id: u64): set<char>
  {
    if id in rows then CharsOf(rows[id].modes) else {}
  }

  /** Flags granted to any of `roles`. */
  function RoleFlags(rows: map<u64, Row>, roles: seq<u64>): set<char>
  {
    if roles == [] then {} else RoleFlags(rows, roles[..|roles| - 1]) + Granted(rows, roles[|roles| - 1])
  }

  /** The member's effective flags: their own and those of every role they hold. */
  function EffectiveFlags(rows: map<u64, Row>, member: u64, roles: seq<u64>): set<char>
  {
    Granted(rows, member) + RoleFlags(rows, roles)
  }

  lemma {:induction false} RoleFlagsMeaning(rows: map<u64, Row>, roles: seq<u64>)
    ensures forall c :: c in RoleFlags(rows, roles) <==> exists i :: 0 <= i < |roles| && c in Granted(rows, roles[i])
  {
    if roles != [] {
      var init := roles[..|roles| - 1];
      RoleFlagsMeaning(rows, init);
      forall c | c in RoleFlags(rows, roles)
        ensures exists i :: 0 <= i < |roles| && c in Granted(rows, roles[i])
      {
        if c !in Granted(rows, roles[|roles| - 1]) {
          assert c in RoleFlags(rows, init);
          var i :| 0 <= i < |init| && c in Granted(rows, init[i]);
          assert roles[i] == init[i];
        }
      }
      forall c | exists i :: 0 <= i < |roles| && c in Granted(rows, roles[i])
        ensures c in RoleFlags(rows, roles)
      {
        var i :| 0 <= i < |roles| && c in Granted(rows, roles[i]);
        if i < |init| {
          assert init[i] == roles[i];
        }
      }
    }
  }

  /**
   * A flag is effective exactly when the member's own row or the row of
   * one of the roles they hold grants it.
   */
  lemma EffectiveFlagsMeaning(rows: map<u64, Row>, member: u64, roles: seq<u64>, c: char)
    ensures c in EffectiveFlags(rows, member, roles) <==>
      || (member in rows && c in rows[member].modes)
      || (exists i :: 0 <= i < |roles| && roles[i] in rows && c in rows[roles[i]].modes)
  {
    RoleFlagsMeaning(rows, roles);
    if exists i :: 0 <= i < |roles| && c in Granted(rows, roles[i]) {
      var i :| 0 <= i < |roles| && c in Granted(rows, roles[i]);
      assert roles[i] in rows && c in rows[roles[i]].modes;
    }
    if exists i :: 0 <= i < |roles| && roles[i] in rows && c in rows[roles[i]].modes {
      var i :| 0 <= i < |roles| && roles[i] in rows && c in rows[roles[i]].modes;
      assert c in Granted(rows, roles[i]);
    }
  }

  /** Holding one more role never turns a passing check into a failure. */
  lemma ExtraRoleKeepsPass(rows: map<u64, Row>, member: u64, roles: seq<u64>, extra: u64, modeStr: string)
    requires CheckFlags(EffectiveFlags(rows, member, roles), modeStr)
    ensures CheckFlags(EffectiveFlags(rows, member, roles + [extra]), modeStr)
  {
    assert (roles + [extra])[..|roles|] == roles;
    CheckFlagsMonotone(EffectiveFlags(rows, member, roles), EffectiveFlags(rows, member, roles + [extra]), modeStr);
  }

  /** Why a command check refused: a message for the user, possibly with a log line. */
  datatype Reason = User(text: string) | UserAndLog(user: string, log: string)

  const PERMISSION_DENIED: string := "permission denied"
  const INTERNAL_ERROR: string := "an internal error occured"

  /**
   * The outcome mapping at the end of `check_perms`: a pass, a denial, or an
   * internal error, and a denial is never reported as an internal error.
   */
  function Verdict(inner: Result<bool, string>): (r: Result<(), Reason>)
    ensures r.Ok? <==> inner == Ok(true)
    ensures r == Err(User(PERMISSION_DENIED)) <==> inner == Ok(false)
    ensures inner.Err? <==> r.Err? && r.error.UserAndLog?
    ensures inner.Err? ==>
      r.error == UserAndLog(INTERNAL_ERROR, "error running perms check: " + inner.error)
  {
    match inner
    case Ok(true) => Ok(())
    case Ok(false) => Err(User(PERMISSION_DENIED))
    case Err(x) => Err(UserAndLog(INTERNAL_ERROR, "error running perms check: " + x))
  }

  /** `unwrap_or_default` on a looked-up row: a missing row reads as no flags. */
  method EntryOrDefault(r: Result<PermsEntry, DbError>) returns (e: PermsEntry)
    ensures r.Ok? ==> e == r.value
    ensures r.Err? ==> e.id == 0 && e.tag == "" && e.modes.flags == {} && fresh(e.modes)
  {
    if r.Ok? {
      e := r.value;
    } else {
      var empty := new Modes.Empty();
      e := PermsEntry(0, "", empty);
    }
  }

  /**
   * The flag accumulation of `check_perms`: start empty, add the member's own
   * flags, then the flags of each role the member holds, in order.
   */
  method EffectiveModes(db: PermsDb, guild: u64, author: u64, roles: seq<u64>) returns (modes: Modes)
    requires guild in db.tables
    ensures fresh(modes)
    ensures modes.flags == EffectiveFlags(db.tables[guild], author, roles)
  {
    ghost var rows := db.tables[guild];
    modes := new Modes.Empty();
    var own := db.GetPerms(guild, author);
    var ownEntry := EntryOrDefault(own);
    assert ownEntry.modes.flags == Granted(rows, author);
    modes.Extend(ownEntry.modes);
    assert roles[..0] == [];

    for i := 0 to |roles|
      invariant fresh(modes)
      invariant modes.flags == EffectiveFlags(rows, author, roles[..i])
    {
      var found := db.GetPerms(guild, roles[i]);
      var entry := EntryOrDefault(found);
      assert entry.modes.flags == Granted(rows, roles[i]);
      modes.Extend(entry.modes);
      assert roles[..i + 1][..i] == roles[..i];
      assert RoleFlags(rows, roles[..i + 1]) == RoleFlags(rows, roles[..i]) + Granted(rows, roles[i]);
    }
    assert roles[..|roles|] == roles;
  }

  /**
   * The inner function of `check_perms`. `administrator` is the outcome of
   * asking the platform whether the member is an administrator;
   * `storageFault` is a failure to open the database or create the table.
   */
  method CheckPermsInner(db: PermsDb, administrator: Result<bool, string>, storageFault: Option<string>,
                         guild: u64, author: u64, roles: seq<u64>, modeStr: string)
    returns (r: Result<bool, string>)
    modifies db
    ensures administrator.Err? ==> r == Err(administrator.error) && db.tables == old(db.tables)
    ensures administrator == Ok(true) ==> r == Ok(true) && db.tables == old(db.tables)
    ensures administrator == Ok(false) && storageFault.Some? ==>
      r == Err(storageFault.value) && db.tables == old(db.tables)
    ensures administrator == Ok(false) && storageFault.None? ==>
      && db.tables == (if guild in old(db.tables) then old(db.tables) else old(db.tables)[guild := map[]])
      && r == Ok(CheckFlags(EffectiveFlags(db.tables[guild], author, roles), modeStr))
  {
    if administrator.Err? {
      return Err(administrator.error);
    }
    if administrator.value {
      return Ok(true);
    }
    if storageFault.Some? {
      return Err(storageFault.value);
    }
    db.Table(guild);
    var modes := EffectiveModes(db, guild, author, roles);
    r := Ok(modes.Check(modeStr));
  }

  /**
   * `check_perms`: administrators pass without any table being touched;
   * everyone else passes exactly when their effective flags satisfy
   * `modeStr`, is denied otherwise, and a fault is reported as an internal
   * error.
   */
  method CheckPerms(db: PermsDb, administrator: Result<bool, string>, storageFault: Option<string>,
                    guild: u64, author: u64, roles: seq<u64>, modeStr: string)
    returns (r: Result<(), Reason>)
    modifies db
    ensures administrator == Ok(true) ==> r == Ok(()) && db.tables == old(db.tables)
    ensures administrator.Err? ==>
      && r == Err(UserAndLog(INTERNAL_ERROR, "error running perms check: " + administrator.error))
      && db.tables == old(db.tables)
    ensures administrator == Ok(false) && storageFault.Some? ==>
      && r == Err(UserAndLog(INTERNAL_ERROR, "error running perms check: " + storageFault.value))
      && db.tables == old(db.tables)
    ensures administrator == Ok(false) && storageFault.None? ==>
      && db.tables == (if guild in old(db.tables) then old(db.tables) else old(db.tables)[guild := map[]])
      && (r.Ok? <==> CheckFlags(EffectiveFlags(db.tables[guild], author, roles), modeStr))
      && (r.Err? ==> r == Err(User(PERMISSION_DENIED)))
  {
    var inner := CheckPermsInner(db, administrator, storageFault, guild, author, roles, modeStr);
    r := Verdict(inner);
  }
}
