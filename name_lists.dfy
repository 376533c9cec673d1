/** The genre and cast fields of the movie routes and of the CSV import: a
    `|`-separated list from which blank entries are dropped and each entry
    is trimmed before it is stored. */
module NameLists {
  import opened Wrappers
  import opened JsText

  const ListSeparator := '|'

  /** `.filter(x => x.trim())` followed by the `x.trim()` each insert binds:
      the non-blank pieces, trimmed, in order. */
  function KeepNames(pieces: seq<string>): (r: seq<string>)
    ensures |r| <= |pieces|
  {
    if pieces == [] then []
    else
      var t := Trim(pieces[0]);
      var rest := KeepNames(pieces[1..]);
      if t == [] then rest else [t] + rest
  }

  /** Some piece trims to `x`. */
  predicate TrimsTo(pieces: seq<string>, x: string) {
    exists k :: 0 <= k < |pieces| && Trim(pieces[k]) == x
  }

  lemma TrimsToCons(pieces: seq<string>, x: string)
    requires pieces != []
    ensures TrimsTo(pieces, x) <==> Trim(pieces[0]) == x || TrimsTo(pieces[1..], x)
  {
    if TrimsTo(pieces[1..], x) {
      var k :| 0 <= k < |pieces[1..]| && Trim(pieces[1..][k]) == x;
      assert pieces[1..][k] == pieces[k + 1];
    }
    if TrimsTo(pieces, x) {
      var k :| 0 <= k < |pieces| && Trim(pieces[k]) == x;
      if k > 0 {
        assert pieces[1..][k - 1] == pieces[k];
      }
    }
  }

  /** A name is kept exactly when some piece trims to it and it is not blank. */
  lemma {:induction false} KeepNamesMembers(pieces: seq<string>, x: string)
    ensures x in KeepNames(pieces) <==> x != [] && TrimsTo(pieces, x)
  {
    if pieces != [] {
      KeepNamesMembers(pieces[1..], x);
      TrimsToCons(pieces, x);
      var t := Trim(pieces[0]);
      var rest := KeepNames(pieces[1..]);
      assert KeepNames(pieces) == if t == [] then rest else [t] + rest;
      assert x in KeepNames(pieces) <==> (t != [] && x == t) || x in rest;
    }
  }

  /** Every kept name is non-blank and has no surrounding spaces. */
  lemma KeptNamesTrimmed(pieces: seq<string>)
    ensures forall k :: 0 <= k < |KeepNames(pieces)| ==>
      KeepNames(pieces)[k] != [] && Trim(KeepNames(pieces)[k]) == KeepNames(pieces)[k]
  {
    var r := KeepNames(pieces);
    forall k | 0 <= k < |r|
      ensures r[k] != [] && Trim(r[k]) == r[k]
    {
      assert r[k] in r;
      KeepNamesMembers(pieces, r[k]);
      var j :| 0 <= j < |pieces| && Trim(pieces[j]) == r[k];
      TrimIdempotent(pieces[j]);
    }
  }

  /** No kept piece of a split holds the separator. */
  lemma KeptPiecesFree(field: string)
    ensures forall k :: 0 <= k < |KeepNames(Split(field, ListSeparator))| ==>
      ListSeparator !in KeepNames(Split(field, ListSeparator))[k]
  {
    var pieces := Split(field, ListSeparator);
    var r := KeepNames(pieces);
    forall k | 0 <= k < |r|
      ensures ListSeparator !in r[k]
    {
      assert r[k] in r;
      KeepNamesMembers(pieces, r[k]);
      var j :| 0 <= j < |pieces| && Trim(pieces[j]) == r[k];
      if ListSeparator in r[k] {
        TrimChars(pieces[j], ListSeparator);
      }
    }
  }

  /** `field.split('|').filter(x => x.trim())`, each entry trimmed. */
  function ParseNames(field: string): (r: seq<string>)
    ensures forall k :: 0 <= k < |r| ==> r[k] != [] && IsTrimmed(r[k]) && ListSeparator !in r[k]
  {
    KeptPiecesFree(field);
    KeptNamesTrimmed(Split(field, ListSeparator));
    KeepNames(Split(field, ListSeparator))
  }

  /** `(primary || alternative)`, parsed; nothing when both are empty or
      absent (the `if` around each insert loop). */
  function NamesOf(primary: Option<string>, alternative: Option<string>): seq<string> {
    if Present(primary) then ParseNames(primary.value)
    else if Present(alternative) then ParseNames(alternative.value)
    else []
  }

  lemma {:induction false} KeepTrimmedNames(names: seq<string>)
    requires forall k :: 0 <= k < |names| ==> names[k] != [] && Trim(names[k]) == names[k]
    ensures KeepNames(names) == names
  {
    if names != [] {
      KeepTrimmedNames(names[1..]);
      assert [names[0]] + names[1..] == names;
    }
  }

  /** Writing non-blank, trimmed, `|`-free names joined by `|` and parsing
      them gives the names back. */
  lemma ParseJoinedNames(names: seq<string>)
    requires forall k :: 0 <= k < |names| ==> names[k] != [] && IsTrimmed(names[k]) && ListSeparator !in names[k]
    ensures ParseNames(Join(names, ListSeparator)) == names
  {
    if names == [] {
      assert Split([], ListSeparator) == [[]];
      assert Trim([]) == [];
      return;
    }
    SplitJoin(names, ListSeparator);
    forall k | 0 <= k < |names|
      ensures Trim(names[k]) == names[k]
    {
      TrimOfTrimmed(names[k]);
    }
    KeepTrimmedNames(names);
  }

  /** The insert loop with `INSERT OR IGNORE` into a new movie's rows, which
      are keyed by (movie, name): a name already stored is skipped. */
  method InsertOrIgnoreNames(names: seq<string>) returns (rows: seq<string>)
    ensures forall x :: x in rows <==> x in names
    ensures forall i, j :: 0 <= i < j < |rows| ==> rows[i] != rows[j]
  {
    rows := [];
    for n := 0 to |names|
      invariant forall x :: x in rows <==> x in names[..n]
      invariant forall i, j :: 0 <= i < j < |rows| ==> rows[i] != rows[j]
    {
      assert names[..n + 1] == names[..n] + [names[n]];
      if names[n] !in rows {
        rows := rows + [names[n]];
      }
    }
    assert names[..|names|] == names;
  }
}
