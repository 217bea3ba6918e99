// `handleSearch` of public/script.js: every table row whose lower-cased text
// contains the lower-cased query is shown (`display = ''`), every other row
// hidden (`display = 'none'`), and the empty-state element is shown exactly
// when no row is visible. DOM elements are objects with the two fields the
// handler touches.

module LinkSearch {

  /** A DOM element: its `textContent`, which the handler only reads, and
      its `style.display`. */
  class Element {
    const textContent: string
    var display: string

    constructor (text: string)
      ensures textContent == text && display == ""
    {
      textContent := text;
      display := "";
    }
  }

  /** `toLowerCase` on ASCII letters; every other character is kept. */
  function Lower(s: string): string
  {
    if s == [] then [] else [LowerChar(s[0])] + Lower(s[1..])
  }

  /** Lower-casing keeps the length and maps each character on its own. */
  lemma {:induction false} LowerPointwise(s: string)
    ensures |Lower(s)| == |s|
    ensures forall i :: 0 <= i < |s| ==> Lower(s)[i] == LowerChar(s[i])
  {
    if s != [] {
      LowerPointwise(s[1..]);
    }
  }

  function LowerChar(c: char): char
  {
    if 'A' <= c <= 'Z' then (c as int - 'A' as int + 'a' as int) as char else c
  }

  /** `text.includes(q)`: `q` occurs somewhere in `text`. */
  predicate Contains(text: string, q: string)
  {
    q <= text || (text != [] && Contains(text[1..], q))
  }

  /** The row filter of lines 365-366. */
  predicate RowVisible(text: string, query: string)
  {
    Contains(Lower(text), Lower(query))
  }

  /** How many of the texts are visible for the query. */
  function VisibleCount(texts: seq<string>, query: string): nat
  {
    if texts == [] then 0
    else VisibleCount(texts[..|texts| - 1], query)
         + (if RowVisible(texts[|texts| - 1], query) then 1 else 0)
  }

  function Texts(rows: seq<Element>): (texts: seq<string>)
    ensures |texts| == |rows|
    ensures forall i :: 0 <= i < |rows| ==> texts[i] == rows[i].textContent
  {
    seq(|rows|, i requires 0 <= i < |rows| => rows[i].textContent)
  }

  /** The empty query is contained in every text, so it shows every row. */
  lemma {:induction false} EmptyQueryShowsAll(texts: seq<string>)
    ensures VisibleCount(texts, "") == |texts|
  {
    if texts != [] {
      EmptyQueryShowsAll(texts[..|texts| - 1]);
    }
  }

  /** The count is zero exactly when no row is visible. */
  lemma {:induction false} NoneVisibleIffZero(texts: seq<string>, query: string)
    ensures VisibleCount(texts, query) == 0 <==>
            forall i :: 0 <= i < |texts| ==> !RowVisible(texts[i], query)
  {
    if texts != [] {
      var front := texts[..|texts| - 1];
      NoneVisibleIffZero(front, query);
      assert forall i :: 0 <= i < |front| ==> front[i] == texts[i];
    }
  }

  /** The filter ignores the case of ASCII letters in the query. */
  lemma QueryCaseIgnored(text: string, query: string)
    ensures RowVisible(text, query) <==> RowVisible(text, Lower(query))
  {
    LowerPointwise(query);
    LowerPointwise(Lower(query));
    assert Lower(Lower(query)) == Lower(query);
  }

  /** The `rows.forEach` of lines 364-372: each row shown or hidden by the
      filter, and the number shown. */
  method ShowMatchingRows(rows: seq<Element>, query: string) returns (visibleCount: nat)
    modifies rows
    ensures forall i :: 0 <= i < |rows| ==>
      rows[i].display == (if RowVisible(rows[i].textContent, query) then "" else "none")
    ensures visibleCount == VisibleCount(Texts(rows), query)
  {
    ghost var texts := Texts(rows);
    visibleCount := 0;
    var i := 0;
    while i < |rows|
      invariant 0 <= i <= |rows|
      invariant forall k :: 0 <= k < i ==>
        rows[k].display == (if RowVisible(texts[k], query) then "" else "none")
      invariant visibleCount == VisibleCount(texts[..i], query)
    {
      var row := rows[i];
      var shown := Contains(Lower(row.textContent), Lower(query));
      assert texts[..i + 1][..i] == texts[..i];
      row.display := if shown then "" else "none";
      if shown {
        visibleCount := visibleCount + 1;
      }
      i := i + 1;
    }
    assert texts[..|rows|] == texts;
  }

  /** `handleSearch(query)` with the rows of the table body and the
      empty-state element (`null` when the page has none); `tbodyFound` false
      is the early return when the table body is missing. */
  method HandleSearch(tbodyFound: bool, rows: seq<Element>, emptyState: Element?, query: string)
    requires emptyState == null || emptyState !in rows
    modifies rows, emptyState
    ensures !tbodyFound ==> forall i :: 0 <= i < |rows| ==> rows[i].display == old(rows[i].display)
    ensures !tbodyFound && emptyState != null ==> emptyState.display == old(emptyState.display)
    ensures tbodyFound ==> forall i :: 0 <= i < |rows| ==>
      rows[i].display == (if RowVisible(rows[i].textContent, query) then "" else "none")
    ensures tbodyFound && emptyState != null ==>
      emptyState.display == (if VisibleCount(Texts(rows), query) == 0 then "block" else "none")
  {
    if !tbodyFound {
      return;
    }
    var visibleCount := ShowMatchingRows(rows, query);
    if emptyState != null {
      emptyState.display := if visibleCount == 0 then "block" else "none";
    }
  }
}
