/**
 * `load_talkgroup_mapping` (ysf-log_watcher.py:72-87): the rows of the
 * talkgroup CSV, already split by `csv.DictReader`, filtered and normalised
 * into a dict from talkgroup number to talkgroup name.
 *
 * A cell is what `row.get(column, '')` sees: `Absent` when the header has no
 * such column (the default `''` is used), `Unfilled` when the row is shorter
 * than the header (DictReader fills in `None`, whose `.strip()` raises; the
 * handler at ysf-log_watcher.py:85-86 then returns the dict built so far), or
 * the cell's text.
 */
module Talkgroups {
  import opened Wrappers
  import opened Text

  datatype Cell = Absent | Unfilled | Text(value: string)

  /** The two columns the loader reads: `Talkgroup Number` and `Talkgroup Name`. */
  datatype Row = Row(number: Cell, name: Cell)

  /** Reading this row raises, which ends the load. */
  predicate Broken(r: Row)
  {
    r.number.Unfilled? || r.name.Unfilled?
  }

  /** `row.get(column, '').strip()` on a cell that is not `None`: already stripped, and empty for a missing column. */
  function Cleaned(c: Cell): (s: string)
    requires !c.Unfilled?
    ensures Strip(s) == s
    ensures c.Absent? ==> s == []
  {
    match c
    case Absent => ""
    case Text(v) => StripIdempotent(v); Strip(v)
  }

  /**
   * The entry a readable row contributes: both stripped values, when both are
   * non-empty (`if tg and name`). An entry is a clean number and a clean name.
   */
  function Entry(r: Row): (e: Option<(string, string)>)
    requires !Broken(r)
    ensures e.Some? ==> CleanText(e.value.0) && CleanText(e.value.1)
    ensures e.None? <==> Cleaned(r.number) == [] || Cleaned(r.name) == []
  {
    var tg, name := Cleaned(r.number), Cleaned(r.name);
    if tg != [] && name != [] then Some((tg, name)) else None
  }

  predicate AllReadable(rows: seq<Row>)
  {
    forall i :: 0 <= i < |rows| ==> !Broken(rows[i])
  }

  /** Number of rows read before the first one that raises. */
  function ReadableCount(rows: seq<Row>): (n: nat)
    ensures n <= |rows| && forall j :: 0 <= j < n ==> !Broken(rows[j])
    ensures n < |rows| ==> Broken(rows[n])
    ensures AllReadable(rows[..n])
  {
    if rows == [] || Broken(rows[0]) then 0
    else
      var n := 1 + ReadableCount(rows[1..]);
      assert forall j :: 1 <= j < n ==> rows[j] == rows[1..][j - 1];
      assert forall j :: 0 <= j < n ==> rows[..n][j] == rows[j];
      n
  }

  /** The rows read before the first broken one. */
  lemma ReadablePrefix(rows: seq<Row>, i: nat)
    requires i <= ReadableCount(rows)
    ensures AllReadable(rows[..i])
  {
    assert forall j :: 0 <= j < i ==> rows[..i][j] == rows[j];
  }

  /** The entry of each row, in order. */
  function Entries(rows: seq<Row>): (es: seq<Option<(string, string)>>)
    requires AllReadable(rows)
    ensures |es| == |rows|
    decreases |rows|
  {
    if rows == [] then [] else Entries(rows[..|rows| - 1]) + [Entry(rows[|rows| - 1])]
  }

  lemma {:induction false} EntriesAt(rows: seq<Row>, j: nat)
    requires AllReadable(rows) && j < |rows|
    ensures Entries(rows)[j] == Entry(rows[j])
    decreases |rows|
  {
    var k := |rows| - 1;
    if j < k {
      assert AllReadable(rows[..k]);
      EntriesAt(rows[..k], j);
      assert rows[..k][j] == rows[j];
    }
  }

  /** The dict after `m[tg] = name` has run on every entry, in order: later entries overwrite earlier ones. */
  function Fill(es: seq<Option<(string, string)>>): (m: map<string, string>)
    ensures forall tg :: tg in m ==> exists j :: 0 <= j < |es| && es[j] == Some((tg, m[tg]))
    decreases |es|
  {
    if es == [] then map[]
    else
      var init := es[..|es| - 1];
      assert forall j :: 0 <= j < |init| ==> init[j] == es[j];
      Put(Fill(init), es[|es| - 1])
  }

  /** The loop body for one entry: `if tg and name: m[tg] = name`. Only the entry's number changes. */
  function Put(m: map<string, string>, e: Option<(string, string)>): (r: map<string, string>)
    ensures e.None? ==> r == m
    ensures e.Some? ==> e.value.0 in r && r[e.value.0] == e.value.1
    ensures forall tg :: tg in m && !Names(e, tg) ==> tg in r && r[tg] == m[tg]
  {
    match e
    case None => m
    case Some((tg, name)) => m[tg := name]
  }

  /** What `load_talkgroup_mapping` returns for these rows: every entry is a clean number mapped to a clean name. */
  function TalkgroupMapping(rows: seq<Row>): (m: map<string, string>)
    ensures Clean(m)
  {
    FillClean(rows[..ReadableCount(rows)]);
    Fill(Entries(rows[..ReadableCount(rows)]))
  }

  lemma ReadOneMore(rows: seq<Row>, i: nat)
    requires i < ReadableCount(rows)
    ensures AllReadable(rows[..i]) && AllReadable(rows[..i + 1]) && !Broken(rows[i])
    ensures Entries(rows[..i + 1]) == Entries(rows[..i]) + [Entry(rows[i])]
  {
    ReadablePrefix(rows, i);
    ReadablePrefix(rows, i + 1);
    assert rows[..i + 1][..i] == rows[..i];
    assert rows[..i + 1][i] == rows[i];
  }

  lemma FillStep(es: seq<Option<(string, string)>>, e: Option<(string, string)>)
    ensures Fill(es + [e]) == Put(Fill(es), e)
  {
    assert (es + [e])[..|es|] == es;
  }

  lemma PutEntry(m: map<string, string>, r: Row)
    requires !Broken(r)
    ensures var tg, name := Cleaned(r.number), Cleaned(r.name);
      Put(m, Entry(r)) == if tg != [] && name != [] then m[tg := name] else m
  {
  }

  /** One more readable row read: the dict after the loop body is the fill of one more entry. */
  lemma LoadStep(rows: seq<Row>, i: nat, m: map<string, string>)
    requires i < ReadableCount(rows)
    requires AllReadable(rows[..i]) && m == Fill(Entries(rows[..i]))
    ensures AllReadable(rows[..i + 1]) && !Broken(rows[i])
    ensures var tg, name := Cleaned(rows[i].number), Cleaned(rows[i].name);
      (if tg != [] && name != [] then m[tg := name] else m) == Fill(Entries(rows[..i + 1]))
  {
    ReadOneMore(rows, i);
    FillStep(Entries(rows[..i]), Entry(rows[i]));
    PutEntry(m, rows[i]);
  }

  /** The loop of ysf-log_watcher.py:77-81 and its exception handler (ysf-log_watcher.py:85-87). */
  method LoadTalkgroupMapping(rows: seq<Row>) returns (m: map<string, string>)
    ensures m == TalkgroupMapping(rows)
  {
    m := map[];
    var i := 0;
    ReadablePrefix(rows, 0);
    while i < |rows|
      invariant i <= ReadableCount(rows) && AllReadable(rows[..i])
      invariant m == Fill(Entries(rows[..i]))
    {
      var row := rows[i];
      if Broken(row) {
        // `None.strip()` raises AttributeError; `except Exception` returns `m`
        break;
      }
      var tg := Cleaned(row.number);
      var name := Cleaned(row.name);
      LoadStep(rows, i, m);
      if tg != [] && name != [] {
        m := m[tg := name];
      }
      i := i + 1;
    }
    assert rows[..i] == rows[..ReadableCount(rows)];
  }

  /** `e` is an entry for `tg`. */
  predicate Names(e: Option<(string, string)>, tg: string)
  {
    e.Some? && e.value.0 == tg
  }

  /** The position of the last entry for `tg`, if any. */
  function LastNaming(es: seq<Option<(string, string)>>, tg: string): (r: Option<nat>)
    ensures r.Some? ==> (r.value < |es| && Names(es[r.value], tg)
      && forall j :: r.value < j < |es| ==> !Names(es[j], tg))
    ensures r.None? ==> forall j :: 0 <= j < |es| ==> !Names(es[j], tg)
    decreases |es|
  {
    if es == [] then None
    else if Names(es[|es| - 1], tg) then Some(|es| - 1)
    else
      var init := es[..|es| - 1];
      assert forall j :: 0 <= j < |init| ==> init[j] == es[j];
      LastNaming(init, tg)
  }

  /**
   * A number is in the dict exactly when some entry is for it, and then its
   * name is the one of the last such entry: later rows override.
   */
  lemma {:induction false} FillLookup(es: seq<Option<(string, string)>>, tg: string)
    ensures tg in Fill(es) <==> LastNaming(es, tg).Some?
    ensures tg in Fill(es) ==> Fill(es)[tg] == es[LastNaming(es, tg).value].value.1
    decreases |es|
  {
    if es != [] {
      FillLookup(es[..|es| - 1], tg);
    }
  }

  /** Text that `strip()` leaves alone and that is not empty. */
  predicate CleanText(s: string)
  {
    s != [] && Strip(s) == s
  }

  /** Every entry is a clean number mapped to a clean name. */
  predicate Clean(m: map<string, string>)
  {
    forall tg :: tg in m ==> CleanText(tg) && CleanText(m[tg])
  }

  /** Every entry of the dict is a stripped, non-empty number mapped to a stripped, non-empty name. */
  lemma {:induction false} FillClean(rows: seq<Row>)
    requires AllReadable(rows)
    ensures Clean(Fill(Entries(rows)))
    decreases |rows|
  {
    if rows != [] {
      var k := |rows| - 1;
      assert AllReadable(rows[..k]);
      FillClean(rows[..k]);
      FillStep(Entries(rows[..k]), Entry(rows[k]));
    }
  }

  /**
   * The loaded dict: a number is in it exactly when a row read before the
   * first broken one has an entry for it, and its name is that of the last
   * such row.
   */
  lemma MappingLookup(rows: seq<Row>, tg: string)
    ensures var n := ReadableCount(rows); var m := TalkgroupMapping(rows);
      var last := LastNaming(Entries(rows[..n]), tg);
      && (tg in m <==> last.Some?)
      && (tg in m ==> (last.value < n && Names(Entry(rows[last.value]), tg)
            && m[tg] == Entry(rows[last.value]).value.1
            && forall j :: last.value < j < n ==> !Names(Entry(rows[j]), tg)))
      && (tg !in m ==> forall j :: 0 <= j < n ==> !Names(Entry(rows[j]), tg))
  {
    var n := ReadableCount(rows);
    var es := Entries(rows[..n]);
    FillLookup(es, tg);
    forall j | 0 <= j < n
      ensures es[j] == Entry(rows[j])
    {
      EntriesAt(rows[..n], j);
      assert rows[..n][j] == rows[j];
    }
  }

  /** A row that raises ends the load: nothing from it or after it reaches the dict. */
  lemma BrokenRowEndsLoad(rows: seq<Row>, k: nat)
    requires k < |rows| && Broken(rows[k])
    ensures TalkgroupMapping(rows) == TalkgroupMapping(rows[..k])
  {
    var n := ReadableCount(rows);
    var p := rows[..k];
    var np := ReadableCount(p);
    assert n <= k;
    assert forall i :: 0 <= i < k ==> p[i] == rows[i];
    assert np == n;
    assert p[..np] == rows[..n];
  }
}
