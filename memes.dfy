/**
 * The meme store of one guild: an auto-numbered table id -> (time, text)
 * together with its `sqlite_sequence` cursor, and the `meme`, `addmeme` and
 * `delmeme` commands that work on it.
 */
module Memes {
  import opened Wrappers
  import opened Text

  // ---------------------------------------------------------------------------
  // SQLite's LIKE, as used by the text search.
  // ---------------------------------------------------------------------------

  /**
   * `s LIKE p` without an ESCAPE clause: '%' matches any run of characters,
   * '_' any single character, and every other character matches itself
   * ignoring the case of ASCII letters.
   */
  predicate Like(s: string, p: string)
    decreases |s| + |p|
  {
    if p == [] then s == []
    else if p[0] == '%' then Like(s, p[1..]) || (s != [] && Like(s[1..], p))
    else s != [] && (p[0] == '_' || LowerChar(p[0]) == LowerChar(s[0])) && Like(s[1..], p[1..])
  }

  /** The query has no character that LIKE treats specially. */
  predicate WildcardFree(q: string)
  {
    forall i :: 0 <= i < |q| ==> q[i] != '%' && q[i] != '_'
  }

  lemma {:induction false} LikeAnyRest(s: string)
    ensures Like(s, "%")
    decreases |s|
  {
    assert "%"[1..] == "";
    if s != [] {
      LikeAnyRest(s[1..]);
    }
  }

  lemma SameIgnoringCaseStep(a: string, b: string)
    requires |a| == |b| > 0
    ensures SameIgnoringCase(a, b) <==> LowerChar(a[0]) == LowerChar(b[0]) && SameIgnoringCase(a[1..], b[1..])
  {
    if LowerChar(a[0]) == LowerChar(b[0]) && SameIgnoringCase(a[1..], b[1..]) {
      forall i | 0 <= i < |a| ensures LowerChar(a[i]) == LowerChar(b[i]) {
        if i > 0 {
          assert a[i] == a[1..][i - 1] && b[i] == b[1..][i - 1];
        }
      }
    }
  }

  /** Dropping the first character keeps a pattern free of wildcards. */
  lemma WildcardTail(p: string)
    requires p != []
    ensures WildcardFree(p) ==> WildcardFree(p[1..])
  {
    if WildcardFree(p) {
      forall i | 0 <= i < |p[1..]| ensures p[1..][i] != '%' && p[1..][i] != '_' {
        assert p[1..][i] == p[i + 1];
      }
    }
  }

  /** A pattern without wildcards matches exactly the texts equal to it up to case. */
  lemma {:induction false} LikeWildcardFree(s: string, p: string)
    requires WildcardFree(p)
    ensures Like(s, p) <==> SameIgnoringCase(s, p)
    decreases |p|
  {
    if p != [] {
      WildcardTail(p);
      assert p[0] != '%' && p[0] != '_';
      if s != [] {
        LikeWildcardFree(s[1..], p[1..]);
        if |s| == |p| {
          SameIgnoringCaseStep(s, p);
        }
      }
    }
  }

  /** A literal query followed by '%' matches exactly the texts that start with it, up to case. */
  lemma {:induction false} LikeLiteralPrefix(t: string, q: string)
    requires WildcardFree(q)
    ensures Like(t, q + "%") <==> |q| <= |t| && SameIgnoringCase(t[..|q|], q)
    decreases |q|
  {
    if q == [] {
      assert q + "%" == "%";
      LikeAnyRest(t);
    } else {
      var p := q + "%";
      assert p[0] == q[0] && p[1..] == q[1..] + "%";
      assert q[0] != '%' && q[0] != '_';
      assert WildcardFree(q[1..]) by {
        forall i | 0 <= i < |q[1..]| ensures q[1..][i] != '%' && q[1..][i] != '_' {
          assert q[1..][i] == q[i + 1];
        }
      }
      if t != [] {
        LikeLiteralPrefix(t[1..], q[1..]);
        if |q| <= |t| {
          assert t[1..][..|q| - 1] == t[..|q|][1..];
          SameIgnoringCaseStep(t[..|q|], q);
        }
      }
    }
  }

  /** A pattern that starts with '%' matches when the rest matches some suffix. */
  lemma {:induction false} LikeAfterPercent(s: string, r: string)
    ensures Like(s, "%" + r) <==> exists i :: 0 <= i <= |s| && Like(s[i..], r)
    decreases |s|
  {
    var p := "%" + r;
    assert p[0] == '%' && p[1..] == r;
    if s == [] {
      if Like(s, p) {
        assert Like(s[0..], r);
      }
    } else {
      LikeAfterPercent(s[1..], r);
      if Like(s, p) {
        if Like(s, r) {
          assert s[0..] == s;
        } else {
          var i :| 0 <= i <= |s| - 1 && Like(s[1..][i..], r);
          assert s[1..][i..] == s[i + 1..];
        }
      }
      if exists i :: 0 <= i <= |s| && Like(s[i..], r) {
        var i :| 0 <= i <= |s| && Like(s[i..], r);
        if i == 0 {
          assert s[0..] == s;
        } else {
          assert s[1..][i - 1..] == s[i..];
        }
      }
    }
  }

  lemma LowerSlice(s: string, i: nat, j: nat)
    requires i <= j <= |s|
    ensures Lower(s)[i..j] == Lower(s[i..j])
  {
  }

  lemma SearchPatternToSubstring(text: string, q: string)
    requires WildcardFree(q)
    requires Like(text, "%" + (q + "%"))
    ensures Contains(Lower(text), Lower(q))
  {
    LikeAfterPercent(text, q + "%");
    var i :| 0 <= i <= |text| && Like(text[i..], q + "%");
    LikeLiteralPrefix(text[i..], q);
    assert text[i..][..|q|] == text[i..i + |q|];
    SameIgnoringCaseIsLowerEqual(text[i..i + |q|], q);
    LowerSlice(text, i, i + |q|);
    assert OccursAt(Lower(text), Lower(q), i);
  }

  lemma SubstringToSearchPattern(text: string, q: string)
    requires WildcardFree(q)
    requires Contains(Lower(text), Lower(q))
    ensures Like(text, "%" + (q + "%"))
  {
    var i :| 0 <= i <= |Lower(text)| - |Lower(q)| && OccursAt(Lower(text), Lower(q), i);
    LowerSlice(text, i, i + |q|);
    SameIgnoringCaseIsLowerEqual(text[i..i + |q|], q);
    LikeLiteralPrefix(text[i..], q);
    assert text[i..][..|q|] == text[i..i + |q|];
    LikeAfterPercent(text, q + "%");
  }

  /**
   * For a query without wildcards, the search pattern `%query%` matches a
   * text exactly when the text contains the query, ignoring case.
   */
  lemma SearchPatternIsSubstring(text: string, q: string)
    requires WildcardFree(q)
    ensures Like(text, "%" + q + "%") <==> Contains(Lower(text), Lower(q))
  {
    assert "%" + q + "%" == "%" + (q + "%");
    if Like(text, "%" + q + "%") {
      SearchPatternToSubstring(text, q);
    }
    if Contains(Lower(text), Lower(q)) {
      SubstringToSearchPattern(text, q);
    }
  }

  // ---------------------------------------------------------------------------
  // The `meme` command's argument.
  // ---------------------------------------------------------------------------

  /** What the `meme` command was asked for. */
  datatype MemeRequest = Random | ById(id: int) | Latest | TextSearch(query: string)

  /**
   * An empty argument asks for a random meme; a nonzero i32 for that id;
   * zero for the latest meme; anything that is not an i32 is a text search.
   */
  function ParseMemeArg(arg: string): (r: MemeRequest)
    ensures r == Random <==> arg == ""
    ensures r == Latest <==> ParseI32(arg) == Some(0)
    ensures r.ById? <==> ParseI32(arg).Some? && ParseI32(arg).value != 0
    ensures r.ById? ==> ParseI32(arg) == Some(r.id)
    ensures r.TextSearch? <==> arg != "" && ParseI32(arg).None?
    ensures r.TextSearch? ==> r.query == arg
  {
    if arg == [] then Random
    else match ParseI32(arg)
      case Some(x) => if x != 0 then ById(x) else Latest
      case None => TextSearch(arg)
  }

  // ---------------------------------------------------------------------------
  // The table.
  // ---------------------------------------------------------------------------

  /** A stored row. */
  datatype Row = Row(time: int, text: string)

  /** A row as read back: its id and text. */
  datatype Meme = Meme(id: int, text: string)

  /**
   * Why a query or a command failed. `EmptyTable` is the random pick on an
   * empty table, whose row offset `abs(random()) % 0` is NULL, which SQLite rejects.
   */
  datatype Fault = QueryReturnedNoRows | ParseIntError | EmptyTable

  function NotFoundMessage(x: int): string
  {
    "meme " + IntToString(x) + " not found"
  }

  function NoSearchMatchMessage(arg: string): string
  {
    "meme matching \"" + arg + "\" not found"
  }

  const DELETE_FAILED: string := "error deleting meme (it probably doesn't exist to begin with)"

  /** A non-empty set of ids has a member to pick. */
  lemma NonEmptyHasMember(s: set<int>)
    requires s != {}
    ensures exists id :: id in s
  {
    if forall id :: id !in s {
      assert false;
    }
  }

  class MemeTable {
    /** id -> row. */
    var rows: map<int, Row>
    /** The table's `seq` in `sqlite_sequence`: the last id handed out. */
    var sequence: int

    /** AUTOINCREMENT's guarantee: the cursor is not negative, every id is positive and at most the cursor. */
    ghost predicate Valid()
      reads this
    {
      && 0 <= sequence
      && forall id :: id in rows ==> 1 <= id <= sequence
    }

    /** The cursor is the greatest id present, or 0 when the table is empty. */
    ghost predicate Synced()
      reads this
    {
      if rows == map[] then sequence == 0
      else sequence in rows && forall id :: id in rows ==> id <= sequence
    }

    /** A freshly created table: no rows, cursor 0. */
    constructor()
      ensures Valid() && Synced()
      ensures rows == map[] && sequence == 0
    {
      rows := map[];
      sequence := 0;
    }

    /**
     * `sql::add_meme`: insert a row under the next id, which is above every
     * id present, and advance the cursor to it.
     */
    method AddMeme(time: int, text: string)
      requires Valid()
      modifies this
      ensures Valid()
      ensures sequence == old(sequence) + 1
      ensures forall id :: id in old(rows) ==> id < sequence
      ensures rows == old(rows)[sequence := Row(time, text)]
      ensures old(Synced()) ==> Synced()
    {
      sequence := sequence + 1;
      rows := rows[sequence := Row(time, text)];
      assert sequence in rows;
    }

    /** `sql::get_seq`. */
    method GetSeq() returns (s: int)
      ensures s == sequence
    {
      s := sequence;
    }

    /** `sql::set_seq`. */
    method SetSeq(s: int)
      modifies this
      ensures sequence == s && rows == old(rows)
    {
      sequence := s;
    }

    /** `sql::del_meme`: remove the row `id`, if any; the cursor is left alone. */
    method DelMeme(id: int)
      modifies this
      ensures rows == old(rows) - {id} && sequence == old(sequence)
    {
      rows := rows - {id};
    }

    /** `sql::meme_by_id`: the row with exactly this id, or no rows. */
    method MemeById(id: int) returns (r: Result<Meme, Fault>)
      ensures r.Ok? <==> id in rows
      ensures r.Ok? ==> r.value == Meme(id, rows[id].text)
      ensures r.Err? ==> r.error == QueryReturnedNoRows
    {
      if id in rows {
        r := Ok(Meme(id, rows[id].text));
      } else {
        r := Err(QueryReturnedNoRows);
      }
    }

    /** `sql::latest_meme`: the row with the greatest id, or no rows when empty. */
    method LatestMeme() returns (r: Result<Meme, Fault>)
      ensures r.Ok? <==> rows != map[]
      ensures r.Ok? ==> r.value.id in rows && r.value.text == rows[r.value.id].text
      ensures r.Ok? ==> forall id :: id in rows ==> id <= r.value.id
      ensures r.Err? ==> r.error == QueryReturnedNoRows
    {
      if rows == map[] {
        return Err(QueryReturnedNoRows);
      }
      NonEmptyHasMember(rows.Keys);
      var best :| best in rows.Keys;
      var rest := rows.Keys - {best};
      while rest != {}
        invariant rest <= rows.Keys
        invariant best in rows
        invariant forall id :: id in rows && id !in rest ==> id <= best
        decreases rest
      {
        NonEmptyHasMember(rest);
        var id :| id in rest;
        if id > best {
          best := id;
        }
        rest := rest - {id};
      }
      r := Ok(Meme(best, rows[best].text));
    }

    /** `sql::random_meme`: some row, any of them; the query fails on an empty table. */
    method RandomMeme() returns (r: Result<Meme, Fault>)
      ensures r.Ok? <==> rows != map[]
      ensures r.Ok? ==> r.value.id in rows && r.value.text == rows[r.value.id].text
      ensures r.Err? ==> r.error == EmptyTable
    {
      if rows == map[] {
        // The offset is `abs(random()) % 0`, which is NULL, and SQLite rejects it.
        return Err(EmptyTable);
      }
      NonEmptyHasMember(rows.Keys);
      var id :| id in rows.Keys;
      r := Ok(Meme(id, rows[id].text));
    }

    /** `sql::search_meme`: some row whose text is LIKE `%query%`, any of them. */
    method SearchMeme(query: string) returns (r: Result<Meme, Fault>)
      ensures r.Ok? <==> exists id :: id in rows && Like(rows[id].text, "%" + query + "%")
      ensures r.Ok? ==>
        && r.value.id in rows
        && r.value.text == rows[r.value.id].text
        && Like(r.value.text, "%" + query + "%")
      ensures r.Err? ==> r.error == QueryReturnedNoRows
    {
      var pattern := "%" + query + "%";
      if exists id | id in rows.Keys :: Like(rows[id].text, pattern) {
        var id :| id in rows && Like(rows[id].text, pattern);
        r := Ok(Meme(id, rows[id].text));
      } else {
        r := Err(QueryReturnedNoRows);
      }
    }

    /**
     * The `meme` command: a random meme, a meme by id, the latest meme, or a
     * meme found by text, with a "not found" reply when there is none. Only
     * the random pick on an empty table fails the command.
     */
    method MemeCommand(arg: string) returns (r: Result<string, Fault>)
      ensures match ParseMemeArg(arg)
        case Random =>
          && (rows == map[] ==> r == Err(EmptyTable))
          && (rows != map[] ==> r.Ok? && exists id :: id in rows && r.value == rows[id].text)
        case ById(x) =>
          r == Ok(if x in rows then rows[x].text else NotFoundMessage(x))
        case Latest =>
          && r.Ok?
          && (rows == map[] ==> r.value == NotFoundMessage(0))
          && (rows != map[] ==> exists id :: id in rows && r.value == rows[id].text && forall k :: k in rows ==> k <= id)
        case TextSearch(q) =>
          && r.Ok?
          && ((exists id :: id in rows && Like(rows[id].text, "%" + q + "%")) ==>
                exists id :: id in rows && Like(rows[id].text, "%" + q + "%") && r.value == rows[id].text)
          && (!(exists id :: id in rows && Like(rows[id].text, "%" + q + "%")) ==>
                r.value == NoSearchMatchMessage(q))
    {
      match ParseMemeArg(arg)
      case Random =>
        var m := RandomMeme();
        if m.Err? {
          return Err(m.error);
        }
        r := Ok(m.value.text);
      case ById(x) =>
        var m := MemeById(x);
        r := Ok(if m.Ok? then m.value.text else NotFoundMessage(x));
      case Latest =>
        var m := LatestMeme();
        r := Ok(if m.Ok? then m.value.text else NotFoundMessage(0));
      case TextSearch(q) =>
        var m := SearchMeme(q);
        r := Ok(if m.Ok? then m.value.text else NoSearchMatchMessage(q));
    }

    /**
     * The `addmeme` command: insert the text, then report the cursor, which
     * is the id the new row received.
     */
    method AddMemeCommand(time: int, text: string) returns (reply: string)
      requires Valid()
      modifies this
      ensures Valid()
      ensures sequence == old(sequence) + 1
      ensures sequence !in old(rows) && rows == old(rows)[sequence := Row(time, text)]
      ensures reply == "meme " + IntToString(sequence) + " added successfully"
      ensures old(Synced()) ==> Synced()
    {
      AddMeme(time, text);
      var id := GetSeq();
      reply := "meme " + IntToString(id) + " added successfully";
    }

    /**
     * The `delmeme` command. An argument that is not an i32 fails the
     * command before anything changes. An id that is present is deleted and,
     * in the same transaction, the cursor is re-pinned to the greatest
     * remaining id (0 when none remain); an absent id changes nothing.
     */
    method DelMemeCommand(arg: string) returns (r: Result<string, Fault>)
      requires Valid()
      modifies this
      ensures Valid()
      ensures ParseI32(arg).None? ==>
        r == Err(ParseIntError) && rows == old(rows) && sequence == old(sequence)
      ensures ParseI32(arg).Some? && ParseI32(arg).value !in old(rows) ==>
        r == Ok(DELETE_FAILED) && rows == old(rows) && sequence == old(sequence)
      ensures ParseI32(arg).Some? && ParseI32(arg).value in old(rows) ==>
        var id := ParseI32(arg).value;
        && r == Ok("successfully deleted meme " + IntToString(id) + ": " + old(rows)[id].text)
        && rows == old(rows) - {id}
        && Synced()
        && (old(Synced()) && id != old(sequence) ==> sequence == old(sequence))
    {
      var parsed := ParseI32(arg);
      if parsed.None? {
        return Err(ParseIntError);
      }
      var id := parsed.value;
      var found := MemeById(id);
      if found.Ok? {
        ghost var wasSynced := Synced();
        ghost var oldSequence := sequence;
        DelMeme(id);
        assert wasSynced && id != oldSequence ==> oldSequence in rows;
        var latest := LatestMeme();
        if latest.Ok? {
          SetSeq(latest.value.id);
        } else {
          SetSeq(0);
        }
        r := Ok("successfully deleted meme " + IntToString(id) + ": " + found.value.text);
      } else {
        r := Ok(DELETE_FAILED);
      }
    }
  }
}
