/** The quick-definitions list: every row of the quick-meanings table, normalised
    in document order, with the rows that come out empty rejected. Each row is
    taken as the text already extracted from the page. */
module QuickMeanings {
  import opened Normalizer

  /** `.map(&method(:clean_quick_meaning))` */
  function NormalizeAll(rows: seq<string>): (texts: seq<string>)
    ensures |texts| == |rows|
    ensures forall i :: 0 <= i < |rows| ==> texts[i] == Normalize(rows[i])
  {
    seq(|rows|, i requires 0 <= i < |rows| => Normalize(rows[i]))
  }

  /** `.reject(&:empty?)` */
  function RejectEmpty(texts: seq<string>): (kept: seq<string>)
    ensures |kept| <= |texts|
    ensures forall k :: 0 <= k < |kept| ==> kept[k] != []
  {
    if texts == [] then []
    else (if texts[0] == [] then [] else [texts[0]]) + RejectEmpty(texts[1..])
  }

  /** The positions of the non-empty texts, in increasing order. */
  function NonEmptyAt(texts: seq<string>): (idx: seq<nat>)
    ensures forall k :: 0 <= k < |idx| ==> idx[k] < |texts|
    ensures forall k, l :: 0 <= k < l < |idx| ==> idx[k] < idx[l]
    decreases |texts|
  {
    if texts == [] then []
    else
      var n := |texts| - 1;
      var front := NonEmptyAt(texts[..n]);
      assert forall i :: 0 <= i < n ==> texts[..n][i] == texts[i];
      front + (if texts[n] != [] then [n] else [])
  }

  /** A position is listed exactly when its text is non-empty. */
  lemma {:induction false} NonEmptyAtMembers(texts: seq<string>)
    ensures forall i :: 0 <= i < |texts| ==> (i in NonEmptyAt(texts) <==> texts[i] != [])
    decreases |texts|
  {
    if texts != [] {
      var n := |texts| - 1;
      NonEmptyAtMembers(texts[..n]);
      assert forall i :: 0 <= i < n ==> texts[..n][i] == texts[i];
    }
  }

  lemma {:induction false} RejectEmptyConcat(a: seq<string>, b: seq<string>)
    ensures RejectEmpty(a + b) == RejectEmpty(a) + RejectEmpty(b)
    decreases |a|
  {
    if a == [] {
      assert a + b == b;
    } else {
      assert (a + b)[1..] == a[1..] + b;
      RejectEmptyConcat(a[1..], b);
    }
  }

  /** Rejecting the empty texts keeps every non-empty one, in order, and nothing else. */
  lemma {:induction false} RejectEmptySelect(texts: seq<string>)
    ensures |RejectEmpty(texts)| == |NonEmptyAt(texts)|
    ensures forall k :: 0 <= k < |NonEmptyAt(texts)| ==>
              RejectEmpty(texts)[k] == texts[NonEmptyAt(texts)[k]]
    decreases |texts|
  {
    if texts != [] {
      var n := |texts| - 1;
      var front := texts[..n];
      RejectEmptySelect(front);
      var last := if texts[n] != [] then [texts[n]] else [];
      assert RejectEmpty(texts) == RejectEmpty(front) + last by {
        assert texts == front + [texts[n]];
        RejectEmptyConcat(front, [texts[n]]);
        assert [texts[n]][1..] == [];
      }
      var idx := NonEmptyAt(texts);
      assert idx == NonEmptyAt(front) + (if texts[n] != [] then [n] else []);
      forall k | 0 <= k < |NonEmptyAt(front)|
        ensures RejectEmpty(texts)[k] == texts[idx[k]]
      {
        assert front[NonEmptyAt(front)[k]] == texts[idx[k]];
      }
    }
  }

  /** `doc.css(...).map(&method(:clean_quick_meaning)).reject(&:empty?)` on the
      rows' texts. */
  function QuickDefinitions(rows: seq<string>): (defs: seq<string>)
    ensures |defs| <= |rows|
    ensures forall k :: 0 <= k < |defs| ==> defs[k] != []
  {
    RejectEmpty(NormalizeAll(rows))
  }

  /** The rows that survive the filter, in document order: exactly the rows holding
      a character other than whitespace and NUL. */
  function KeptRows(rows: seq<string>): (idx: seq<nat>)
    ensures forall k :: 0 <= k < |idx| ==> idx[k] < |rows|
    ensures forall k, l :: 0 <= k < l < |idx| ==> idx[k] < idx[l]
    ensures forall i :: 0 <= i < |rows| ==>
              (i in idx <==> exists c :: 0 <= c < |rows[i]| && !IsStripChar(rows[i][c]))
  {
    NonEmptyAtMembers(NormalizeAll(rows));
    NonEmptyAt(NormalizeAll(rows))
  }

  /** The quick definitions are the normalised texts of the kept rows, one per kept
      row and in document order: nothing else is dropped, reordered or added. */
  lemma QuickDefinitionsSelect(rows: seq<string>)
    ensures |QuickDefinitions(rows)| == |KeptRows(rows)|
    ensures forall k :: 0 <= k < |KeptRows(rows)| ==>
              QuickDefinitions(rows)[k] == Normalize(rows[KeptRows(rows)[k]])
  {
    RejectEmptySelect(NormalizeAll(rows));
  }

  /** Every quick definition is clean text. */
  lemma QuickDefinitionsClean(rows: seq<string>)
    ensures forall k :: 0 <= k < |QuickDefinitions(rows)| ==> IsClean(QuickDefinitions(rows)[k])
  {
    var defs := QuickDefinitions(rows);
    QuickDefinitionsSelect(rows);
    forall k | 0 <= k < |defs| ensures IsClean(defs[k]) {
      NormalizeClean(rows[KeptRows(rows)[k]]);
    }
  }
}
