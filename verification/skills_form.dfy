/** `parse_skills_form`: the character form posts one list per skill field
    (`skill_name`, `skill_type`, …, `skill_id`); row `i` of the skill table is
    the `i`-th entry of each list. Rows with a blank name are dropped, the
    others become payloads with stripped text fields. */
module SkillsForm {
  import opened Wrappers
  import opened PyStr

  /** The lists `form.getlist(...)` returns, one per field. Lists may differ in
      length: a field missing for a row reads as absent. */
  datatype Form = Form(
    names: seq<string>,
    types: seq<string>,
    descriptions: seq<string>,
    validHits: seq<string>,
    cooldowns: seq<string>,
    levels: seq<string>,
    ids: seq<string>)

  /** One parsed row; `id` is the raw `skill_id` text, `""` when the row has none. */
  datatype SkillPayload = SkillPayload(
    id: string,
    name: string,
    skillType: Option<string>,
    description: Option<string>,
    validHits: Option<string>,
    cooldown: Option<string>,
    levelInfo: Option<string>)

  /** `not name or not name.strip()`: nothing but whitespace. */
  predicate Blank(name: string)
  {
    name == [] || (IsSpace(name[0]) && Blank(name[1..]))
  }

  /** The source's test, `not name or not name.strip()`, is `Blank`. */
  lemma {:induction false} BlankIffStripsEmpty(name: string)
    ensures Blank(name) <==> name == [] || Strip(name) == []
  {
    StripMeaning(name);
    if name != [] {
      BlankIffStripsEmpty(name[1..]);
      assert forall i :: 1 <= i < |name| ==> name[i] == name[1..][i - 1];
    }
  }

  /** `xs[idx].strip() if idx < len(xs) else None`. */
  function Field(xs: seq<string>, idx: nat): (r: Option<string>)
    ensures r.Some? <==> idx < |xs|
  {
    if idx < |xs| then Some(Strip(xs[idx])) else None
  }

  /** A present field has no surrounding whitespace left to strip. */
  lemma FieldStripped(xs: seq<string>, idx: nat)
    ensures var r := Field(xs, idx); r.Some? ==> Strip(r.value) == r.value
  {
    if idx < |xs| {
      StripIdempotent(xs[idx]);
    }
  }

  /** The payload built from row `idx`; the id is taken verbatim (not stripped). */
  function Row(f: Form, idx: nat): (p: SkillPayload)
    requires idx < |f.names|
  {
    SkillPayload(
      if idx < |f.ids| then f.ids[idx] else "",
      Strip(f.names[idx]),
      Field(f.types, idx),
      Field(f.descriptions, idx),
      Field(f.validHits, idx),
      Field(f.cooldowns, idx),
      Field(f.levels, idx))
  }

  /** The rows among the first `n` whose name is not blank, in increasing order. */
  function KeptRows(names: seq<string>, n: nat): (rows: seq<nat>)
    requires n <= |names|
    ensures |rows| <= n
    ensures forall k :: 0 <= k < |rows| ==> rows[k] < n
  {
    if n == 0 then []
    else KeptRows(names, n - 1) + (if Blank(names[n - 1]) then [] else [n - 1])
  }

  predicate Increasing(rows: seq<nat>)
  {
    forall k, l :: 0 <= k < l < |rows| ==> rows[k] < rows[l]
  }

  /** The kept rows come in row order. */
  lemma {:induction false} KeptRowsInOrder(names: seq<string>, n: nat)
    requires n <= |names|
    ensures Increasing(KeptRows(names, n))
  {
    if n > 0 {
      KeptRowsInOrder(names, n - 1);
      var rows0 := KeptRows(names, n - 1);
      if !Blank(names[n - 1]) {
        var rows := rows0 + [n - 1];
        assert KeptRows(names, n) == rows;
        forall k, l | 0 <= k < l < |rows|
          ensures rows[k] < rows[l]
        {
          assert rows[k] == rows0[k];
          if l < |rows0| {
            assert rows[l] == rows0[l];
            assert Increasing(rows0);
          } else {
            assert rows[l] == n - 1 && rows0[k] < n - 1;
          }
        }
      } else {
        assert KeptRows(names, n) == rows0;
      }
    }
  }

  /** Only rows with a non-blank name are kept. */
  lemma {:induction false} KeptRowsNonBlank(names: seq<string>, n: nat, k: nat)
    requires n <= |names| && k < |KeptRows(names, n)|
    ensures !Blank(names[KeptRows(names, n)[k]])
  {
    var rows0 := KeptRows(names, n - 1);
    if k < |rows0| {
      KeptRowsNonBlank(names, n - 1, k);
      assert KeptRows(names, n)[k] == rows0[k];
    }
  }

  /** No row with a non-blank name is dropped. */
  lemma {:induction false} KeptRowsComplete(names: seq<string>, n: nat, i: nat)
    requires i < n <= |names| && !Blank(names[i])
    ensures i in KeptRows(names, n)
  {
    if i < n - 1 {
      KeptRowsComplete(names, n - 1, i);
    }
  }

  /** The entries `table[i]` of the rows among the first `n` whose name is not
      blank, in row order. */
  function Keep<T>(names: seq<string>, n: nat, table: seq<T>): (r: seq<T>)
    requires n <= |names| && n <= |table|
  {
    if n == 0 then []
    else Keep(names, n - 1, table) + (if Blank(names[n - 1]) then [] else [table[n - 1]])
  }

  /** One entry per kept row. */
  lemma {:induction false} KeepLength<T>(names: seq<string>, n: nat, table: seq<T>)
    requires n <= |names| && n <= |table|
    ensures |Keep(names, n, table)| == |KeptRows(names, n)|
  {
    if n > 0 {
      KeepLength(names, n - 1, table);
    }
  }

  /** The `k`-th entry kept is the table entry of the `k`-th kept row. */
  lemma {:induction false} KeepAt<T>(names: seq<string>, n: nat, table: seq<T>, k: nat)
    requires n <= |names| && n <= |table| && k < |KeptRows(names, n)|
    ensures |Keep(names, n, table)| == |KeptRows(names, n)|
    ensures KeptRows(names, n)[k] < |table|
    ensures Keep(names, n, table)[k] == table[KeptRows(names, n)[k]]
  {
    KeepLength(names, n, table);
    var rows, kept := KeptRows(names, n), Keep(names, n, table);
    assert n > 0;
    var rows0, kept0 := KeptRows(names, n - 1), Keep(names, n - 1, table);
    KeepLength(names, n - 1, table);
    if Blank(names[n - 1]) {
      assert rows == rows0 && kept == kept0;
      KeepAt(names, n - 1, table, k);
    } else {
      assert rows == rows0 + [n - 1] && kept == kept0 + [table[n - 1]];
      if k < |rows0| {
        KeepAt(names, n - 1, table, k);
        assert kept[k] == kept0[k] && rows[k] == rows0[k];
      } else {
        assert kept[k] == table[n - 1] && rows[k] == n - 1;
      }
    }
  }

  /** The payload of every row, blank or not. */
  function Table(f: Form): (t: seq<SkillPayload>)
    ensures |t| == |f.names|
    ensures forall i :: 0 <= i < |t| ==> t[i] == Row(f, i)
  {
    seq(|f.names|, i requires 0 <= i < |f.names| => Row(f, i))
  }

  /** The payloads of the first `n` rows. */
  function Parsed(f: Form, n: nat): (skills: seq<SkillPayload>)
    requires n <= |f.names|
  {
    Keep(f.names, n, Table(f))
  }

  /** One more row: its payload is appended unless its name is blank. */
  lemma ParsedSnoc(f: Form, n: nat)
    requires n < |f.names|
    ensures Parsed(f, n + 1) == Parsed(f, n) + (if Blank(f.names[n]) then [] else [Row(f, n)])
  {
    assert Table(f)[n] == Row(f, n);
  }

  /** The `k`-th payload is built from the `k`-th kept row. */
  lemma ParsedAt(f: Form, n: nat, k: nat)
    requires n <= |f.names| && k < |KeptRows(f.names, n)|
    ensures |Parsed(f, n)| == |KeptRows(f.names, n)|
    ensures Parsed(f, n)[k] == Row(f, KeptRows(f.names, n)[k])
  {
    KeepAt(f.names, n, Table(f), k);
  }

  /** Every payload has a non-empty name with no surrounding whitespace. */
  lemma PayloadNames(f: Form, k: nat)
    requires k < |Parsed(f, |f.names|)|
    ensures var name := Parsed(f, |f.names|)[k].name;
      name != [] && Strip(name) == name
  {
    KeepLength(f.names, |f.names|, Table(f));
    var rows := KeptRows(f.names, |f.names|);
    ParsedAt(f, |f.names|, k);
    KeptRowsNonBlank(f.names, |f.names|, k);
    BlankIffStripsEmpty(f.names[rows[k]]);
    StripIdempotent(f.names[rows[k]]);
  }

  /** `parse_skills_form(form)`: one payload per row with a non-blank name, in
      row order, each built from that row's entries; a row missing from a
      shorter list reads as absent (an empty id, `None` for the other fields). */
  method ParseSkillsForm(f: Form) returns (skills: seq<SkillPayload>)
    ensures skills == Parsed(f, |f.names|)
    ensures |skills| <= |f.names|
    ensures var rows := KeptRows(f.names, |f.names|);
      |skills| == |rows| && forall k :: 0 <= k < |skills| ==> skills[k] == Row(f, rows[k])
  {
    skills := [];
    var idx := 0;
    while idx < |f.names|
      invariant idx <= |f.names|
      invariant skills == Parsed(f, idx)
    {
      var name := f.names[idx];
      BlankIffStripsEmpty(name);
      ParsedSnoc(f, idx);
      if name != [] && Strip(name) != [] {
        skills := skills + [Row(f, idx)];
      }
      idx := idx + 1;
    }
    KeepLength(f.names, |f.names|, Table(f));
    forall k | 0 <= k < |skills|
      ensures skills[k] == Row(f, KeptRows(f.names, |f.names|)[k])
    {
      ParsedAt(f, |f.names|, k);
    }
  }
}
