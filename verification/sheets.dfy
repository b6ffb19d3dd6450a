/** The spreadsheet as the server scripts read it: rows of display text, and
    the users sheet whose columns are found by their headers. */
module Sheets {
  import opened Wrappers
  import opened Text

  type Row = seq<string>

  /** A cell of a row; a cell past the end of the row reads as empty. */
  function Cell(row: Row, i: nat): string {
    if i < |row| then row[i] else ""
  }

  /** `Array.prototype.findIndex`: the first position whose element
      satisfies `p`. */
  function FirstWhere<T>(s: seq<T>, p: T -> bool): (r: Option<nat>)
    ensures r.Some? ==> r.value < |s| && p(s[r.value])
    ensures r.Some? ==> forall i :: 0 <= i < r.value ==> !p(s[i])
    ensures r.None? <==> forall i :: 0 <= i < |s| ==> !p(s[i])
  {
    if s == [] then None
    else if p(s[0]) then Some(0)
    else match FirstWhere(s[1..], p)
      case Some(i) => Some(i + 1)
      case None => None
  }

  /** The admin account's id, a deployment secret; it is never empty. */
  type AdminId = s: string | s != "" witness "admin"

  /** The users sheet: its header row, then one row per intern (name in
      the first column, intern id in the second, status in the third). */
  datatype UsersSheet = UsersSheet(header: Row, rows: seq<Row>)

  predicate IsEmailHeader(h: string) {
    Trim(Lower(h)) == "email"
  }

  /** The first column headed "email", ignoring case and surrounding white
      space; `None` for the source's `-1`. */
  function EmailColumn(header: Row): Option<nat> {
    FirstWhere(header, IsEmailHeader)
  }

  /** The e-mail a users row records: lower-cased and trimmed, or "" when
      there is no e-mail column or the cell is empty. */
  function RowEmail(col: Option<nat>, row: Row): (r: string)
    ensures col.None? ==> r == ""
    ensures r != "" ==> r == Trim(Lower(Cell(row, col.value)))
    ensures col.Some? && Cell(row, col.value) != "" ==> r == Trim(Lower(Cell(row, col.value)))
  {
    if col.Some? && Cell(row, col.value) != "" then Trim(Lower(Cell(row, col.value))) else ""
  }

  /** The present results of `f` over `s`, in order: a loop that pushes
      a record for some rows and skips the others. */
  function Keep<A, B(!new)>(s: seq<A>, f: A -> Option<B>): (r: seq<B>)
    ensures |r| <= |s|
    ensures forall y :: y in r <==> exists i :: 0 <= i < |s| && f(s[i]) == Some(y)
  {
    if s == [] then []
    else
      var rest := Keep(s[1..], f);
      assert forall i :: 1 <= i < |s| ==> s[i] == s[1..][i - 1];
      (if f(s[0]).Some? then [f(s[0]).value] else []) + rest
  }

  /** What `f` says about each element of `s`, in order. */
  function Results<A, B>(s: seq<A>, f: A -> Option<B>): (r: seq<Option<B>>)
    ensures |r| == |s| && forall i :: 0 <= i < |s| ==> r[i] == f(s[i])
  {
    seq(|s|, i requires 0 <= i < |s| => f(s[i]))
  }

  /** One row at the front: its result, if present, then the rest. */
  lemma KeepStep<A, B(!new)>(s: seq<A>, f: A -> Option<B>)
    requires s != []
    ensures Keep(s, f) == (if f(s[0]).Some? then [f(s[0]).value] else []) + Keep(s[1..], f)
    ensures Results(s, f) == [f(s[0])] + Results(s[1..], f)
  {
    assert Results(s, f) == [f(s[0])] + Results(s[1..], f);
  }

  /** Nothing is merged or dropped beyond the absent results: each value
      occurs in the kept list as often as `f` yields it. */
  lemma {:induction false} KeepCounts<A, B(!new)>(s: seq<A>, f: A -> Option<B>)
    ensures forall y :: multiset(Keep(s, f))[y] == multiset(Results(s, f))[Some(y)]
  {
    if s != [] {
      KeepCounts(s[1..], f);
      KeepStep(s, f);
      CountStep(f(s[0]), Keep(s[1..], f), Results(s[1..], f));
    }
  }

  lemma CountStep<B>(o: Option<B>, rest: seq<B>, results: seq<Option<B>>)
    requires forall y :: multiset(rest)[y] == multiset(results)[Some(y)]
    ensures forall y :: multiset((if o.Some? then [o.value] else []) + rest)[y] == multiset([o] + results)[Some(y)]
  {
    var head := if o.Some? then [o.value] else [];
    forall y
      ensures multiset(head + rest)[y] == multiset([o] + results)[Some(y)]
    {
      assert multiset(head + rest)[y] == multiset(head)[y] + multiset(rest)[y];
      assert multiset([o] + results)[Some(y)] == multiset([o])[Some(y)] + multiset(results)[Some(y)];
    }
  }

  /** The kept list is as long as the number of present results. */
  lemma {:induction false} KeepLength<A, B(!new)>(s: seq<A>, f: A -> Option<B>)
    ensures |Keep(s, f)| + multiset(Results(s, f))[None] == |s|
  {
    if s != [] {
      var results := Results(s[1..], f);
      KeepLength(s[1..], f);
      KeepStep(s, f);
      assert multiset([f(s[0])] + results)[None] == multiset([f(s[0])])[None] + multiset(results)[None];
    }
  }

  /** Keeping from two stretches of rows one after the other is keeping
      from each stretch and joining the results. */
  lemma {:induction false} KeepAppend<A, B(!new)>(a: seq<A>, b: seq<A>, f: A -> Option<B>)
    ensures Keep(a + b, f) == Keep(a, f) + Keep(b, f)
  {
    if a == [] {
      assert a + b == b;
    } else {
      var head := if f(a[0]).Some? then [f(a[0]).value] else [];
      calc {
        Keep(a + b, f);
        == { assert (a + b)[0] == a[0] && (a + b)[1..] == a[1..] + b; KeepStep(a + b, f); }
        head + Keep(a[1..] + b, f);
        == { KeepAppend(a[1..], b, f); }
        head + (Keep(a[1..], f) + Keep(b, f));
        ==
        (head + Keep(a[1..], f)) + Keep(b, f);
        == { KeepStep(a, f); }
        Keep(a, f) + Keep(b, f);
      }
    }
  }
}
