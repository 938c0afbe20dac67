/**
 * Two scans over the same form elements that number them separately: the field extraction
 * (js/dom_fields_with_coords.js) and the list `field_index` is looked up in (js/inspect_field.js).
 */
module FieldNumbering {
  import opened Text

  /** One element of the common query, in document order. */
  datatype Element = Element(
    hiddenInput: bool, abstractedSelect: bool, emptyBox: bool, displayNone: bool, visibilityHidden: bool, name: string)
  {
    /** The date the element is a part of, by its name. */
    function DateBase(): Option<string> {
      DateBaseOf(name)
    }

    /** The filter both scans apply. */
    predicate Visible() {
      !hiddenInput && !abstractedSelect && !emptyBox && !displayNone && !visibilityHidden
    }
  }

  /** A non-empty base without line ends, then the ending. */
  predicate HasEnding(name: string, ending: string) {
    |name| > |ending| && name[|name| - |ending|..] == ending &&
    forall c <- name[..|name| - |ending|] :: c !in "\n\r" && c as int != 0x2028 && c as int != 0x2029
  }

  /** The base of a date part: the name is the base and one of three endings. */
  function DateBaseOf(name: string): Option<string> {
    if HasEnding(name, "_year") then Some(name[..|name| - 5])
    else if HasEnding(name, "_month") then Some(name[..|name| - 6])
    else if HasEnding(name, "_day") then Some(name[..|name| - 4])
    else None
  }

  /** The three parts of one date have one base. */
  lemma DatePartsShareBase(base: string)
    requires base != "" && forall c <- base :: c !in "\n\r" && c as int != 0x2028 && c as int != 0x2029
    ensures DateBaseOf(base + "_year") == DateBaseOf(base + "_month") == DateBaseOf(base + "_day") == Some(base)
  {
    EndingFound(base, "_year");
    EndingFound(base, "_month");
    EndingFound(base, "_day");
    LastDiffers(base + "_month", "_year");
    LastDiffers(base + "_day", "_year");
    LastDiffers(base + "_day", "_month");
  }

  /** Exactly the names made of a base without line ends and one of the three endings have a base, and that one. */
  lemma DateBaseIff(name: string, base: string)
    ensures DateBaseOf(name) == Some(base) <==>
            base != "" && (forall c <- base :: c !in "\n\r" && c as int != 0x2028 && c as int != 0x2029) &&
            (name == base + "_year" || name == base + "_month" || name == base + "_day")
  {
    if DateBaseOf(name) == Some(base) {
      assert name == base + name[|base|..];
    } else if base != "" && (forall c <- base :: c !in "\n\r" && c as int != 0x2028 && c as int != 0x2029) {
      DatePartsShareBase(base);
    }
  }

  lemma EndingFound(base: string, ending: string)
    requires base != "" && forall c <- base :: c !in "\n\r" && c as int != 0x2028 && c as int != 0x2029
    ensures HasEnding(base + ending, ending) && (base + ending)[..|base + ending| - |ending|] == base
  {
    var name := base + ending;
    assert name[..|name| - |ending|] == base && name[|name| - |ending|..] == ending;
  }

  lemma LastDiffers(name: string, ending: string)
    requires ending != "" && name != "" && name[|name| - 1] != ending[|ending| - 1]
    ensures !HasEnding(name, ending)
  {
    if |name| > |ending| { assert name[|name| - |ending|..][|ending| - 1] == name[|name| - 1]; }
  }

  /** `source` is the position among the scanned elements. */
  datatype Entry = Entry(index: nat, source: nat, name: string)

  /** An earlier visible part of the same date has been extracted already. */
  predicate Suppressed(els: seq<Element>, i: nat)
    requires i < |els|
  {
    els[i].Visible() && els[i].DateBase().Some? &&
    exists j: nat | j < i :: els[j].Visible() && els[j].DateBase() == els[i].DateBase()
  }

  predicate GetsField(els: seq<Element>, i: nat)
    requires i < |els|
  {
    els[i].Visible() && !Suppressed(els, i)
  }

  /** Positions of the visible elements among the first `n`: the list `inspect_field` looks in. */
  function VisibleList(els: seq<Element>, n: nat): seq<nat>
    requires n <= |els|
  {
    if n == 0 then [] else VisibleList(els, n - 1) + if els[n - 1].Visible() then [n - 1] else []
  }

  /** Positions of the elements that get a field among the first `n`. */
  function FieldList(els: seq<Element>, n: nat): seq<nat>
    requires n <= |els|
  {
    if n == 0 then []
    else FieldList(els, n - 1) + if GetsField(els, n - 1) then [n - 1] else []
  }

  function SuppressedCount(els: seq<Element>, n: nat): nat
    requires n <= |els|
  {
    if n == 0 then 0 else SuppressedCount(els, n - 1) + if Suppressed(els, n - 1) then 1 else 0
  }

  /** The name a field is listed under. */
  function FieldName(e: Element): string {
    if e.DateBase().Some? then e.DateBase().value else e.name
  }

  /** The fields of the first `n` elements, numbered as they come. */
  function Fields(els: seq<Element>, n: nat): seq<Entry>
    requires n <= |els|
  {
    if n == 0 then []
    else
      var front := Fields(els, n - 1);
      front + if GetsField(els, n - 1)
              then [Entry(|front|, n - 1, FieldName(els[n - 1]))] else []
  }

  ghost predicate IsProcessed(els: seq<Element>, n: nat, base: string)
    requires n <= |els|
  {
    exists j: nat | j < n :: els[j].Visible() && els[j].DateBase() == Some(base)
  }

  lemma ProcessedNext(els: seq<Element>, n: nat)
    requires n < |els|
    ensures forall b :: IsProcessed(els, n + 1, b) <==>
                        IsProcessed(els, n, b) || (els[n].Visible() && els[n].DateBase() == Some(b))
    ensures Suppressed(els, n) <==>
            els[n].Visible() && els[n].DateBase().Some? && IsProcessed(els, n, els[n].DateBase().value)
  {
    forall b ensures IsProcessed(els, n + 1, b) <==>
                     IsProcessed(els, n, b) || (els[n].Visible() && els[n].DateBase() == Some(b)) {
      if els[n].Visible() && els[n].DateBase() == Some(b) { assert els[n].Visible(); }
    }
  }

  method ExtractFields(els: seq<Element>) returns (fields: seq<Entry>)
    ensures fields == Fields(els, |els|)
    ensures |fields| == |FieldList(els, |els|)|
    ensures forall p: nat | p < |fields| :: fields[p].index == p && fields[p].source == FieldList(els, |els|)[p]
  {
    fields := [];
    var fieldIndex := 0;
    var processed: set<string> := {};
    for n := 0 to |els|
      invariant fieldIndex == |fields| && fields == Fields(els, n)
      invariant forall b :: b in processed <==> IsProcessed(els, n, b)
    {
      var el := els[n];
      assert fields + [] == fields;
      ProcessedNext(els, n);
      if !el.Visible() { continue; }
      if el.DateBase().Some? {
        var base := el.DateBase().value;
        if base in processed { continue; }
        processed := processed + {base};
        fields := fields + [Entry(fieldIndex, n, base)];
        fieldIndex := fieldIndex + 1;
        continue;
      }
      fields := fields + [Entry(fieldIndex, n, el.name)];
      fieldIndex := fieldIndex + 1;
    }
    FieldsAreNumbered(els, |els|);
  }

  /** Fields are numbered by position, and `FieldList` names their elements. */
  lemma {:induction false} FieldsAreNumbered(els: seq<Element>, n: nat)
    requires n <= |els|
    ensures |Fields(els, n)| == |FieldList(els, n)|
    ensures forall p: nat | p < |Fields(els, n)| ::
              Fields(els, n)[p].index == p && Fields(els, n)[p].source == FieldList(els, n)[p]
  {
    if n > 0 { FieldsAreNumbered(els, n - 1); }
  }

  /** `None` where the index is out of range. */
  method InspectField(els: seq<Element>, fieldIndex: int) returns (r: Option<nat>)
    ensures r == if 0 <= fieldIndex < |VisibleList(els, |els|)| then Some(VisibleList(els, |els|)[fieldIndex]) else None
  {
    var visible := [];
    for n := 0 to |els|
      invariant visible == VisibleList(els, n)
    {
      if els[n].Visible() { visible := visible + [n]; } else { assert visible + [] == visible; }
    }
    if fieldIndex < 0 || fieldIndex >= |visible| { return None; }
    r := Some(visible[fieldIndex]);
  }

  // ---- Which elements have a field ----

  /** Not hidden by any of the five tests. */
  predicate IsShown(e: Element) {
    !e.hiddenInput && !e.abstractedSelect && !e.emptyBox && !e.displayNone && !e.visibilityHidden
  }

  lemma {:induction false} FieldListIff(els: seq<Element>, n: nat, i: nat)
    requires n <= |els|
    ensures i in FieldList(els, n) <==>
            i < n && IsShown(els[i]) &&
            !exists j: nat ::
              j < i && IsShown(els[j]) && els[j].DateBase().Some? && els[j].DateBase() == els[i].DateBase()
  {
    if n > 0 {
      FieldListIff(els, n - 1, i);
      assert forall j: nat | j < |els| :: els[j].Visible() <==> IsShown(els[j]);
    }
  }

  /**
   * Exactly the elements that none of the tests hides have a field, but of the parts of one date only the first; a part
   * of a date is listed under the date, any other element under its name.
   */
  lemma FieldsAre(els: seq<Element>, i: nat)
    requires i < |els|
    ensures (exists p: nat :: p < |Fields(els, |els|)| && Fields(els, |els|)[p].source == i) <==>
            IsShown(els[i]) &&
            !exists j: nat ::
              j < i && IsShown(els[j]) && els[j].DateBase().Some? && els[j].DateBase() == els[i].DateBase()
    ensures forall f <- Fields(els, |els|) :: f.source == i ==>
              f.name == match DateBaseOf(els[i].name) case Some(base) => base case None => els[i].name
  {
    FieldListIff(els, |els|, i);
    FieldsAreNumbered(els, |els|);
    FieldNames(els, |els|);
    if i in FieldList(els, |els|) {
      var p: nat :| p < |FieldList(els, |els|)| && FieldList(els, |els|)[p] == i;
      assert Fields(els, |els|)[p].source == i;
    }
  }

  lemma {:induction false} FieldNames(els: seq<Element>, n: nat)
    requires n <= |els|
    ensures forall f <- Fields(els, n) :: f.source < |els| && f.name == FieldName(els[f.source])
  {
    if n > 0 { FieldNames(els, n - 1); }
  }

  // ---- How the two numberings differ ----

  /** Every visible element is extracted or suppressed. */
  lemma {:induction false} ListsDifferBySuppressed(els: seq<Element>, n: nat)
    requires n <= |els|
    ensures |VisibleList(els, n)| == |FieldList(els, n)| + SuppressedCount(els, n)
  {
    if n > 0 { ListsDifferBySuppressed(els, n - 1); }
  }

  /** The visible list is increasing, and an element's place in it is the number of visible elements before it. */
  lemma {:induction false} VisiblePlace(els: seq<Element>, n: nat, p: nat)
    requires n <= |els| && p < |VisibleList(els, n)|
    ensures var i := VisibleList(els, n)[p];
            i < n && els[i].Visible() && |VisibleList(els, i)| == p
  {
    if p < |VisibleList(els, n - 1)| {
      VisiblePlace(els, n - 1, p);
    }
  }

  lemma {:induction false} VisibleAt(els: seq<Element>, n: nat, i: nat)
    requires i < n <= |els| && els[i].Visible()
    ensures |VisibleList(els, i)| < |VisibleList(els, n)| && VisibleList(els, n)[|VisibleList(els, i)|] == i
    decreases n
  {
    if i < n - 1 { VisibleAt(els, n - 1, i); }
  }

  lemma {:induction false} FieldPlace(els: seq<Element>, n: nat, p: nat)
    requires n <= |els| && p < |FieldList(els, n)|
    ensures var i := FieldList(els, n)[p];
            i < n && GetsField(els, i) && |FieldList(els, i)| == p
  {
    if p < |FieldList(els, n - 1)| {
      FieldPlace(els, n - 1, p);
    }
  }

  /** The element with extraction index `p` stands in the visible list later by the suppressed date parts before it. */
  lemma ExtractionIndex(els: seq<Element>, p: nat)
    requires p < |FieldList(els, |els|)|
    ensures var i := FieldList(els, |els|)[p];
            i < |els| && var j := p + SuppressedCount(els, i);
            j < |VisibleList(els, |els|)| && VisibleList(els, |els|)[j] == i
  {
    FieldPlace(els, |els|, p);
    var i := FieldList(els, |els|)[p];
    ListsDifferBySuppressed(els, i);
    VisibleAt(els, |els|, i);
  }

  /** So an index names the same element in both scans exactly if no date part was suppressed before that element. */
  lemma SameElementIff(els: seq<Element>, p: nat)
    requires p < |FieldList(els, |els|)|
    ensures var i := FieldList(els, |els|)[p];
            i < |els| && p < |VisibleList(els, |els|)| &&
            (VisibleList(els, |els|)[p] == i <==> SuppressedCount(els, i) == 0)
  {
    ExtractionIndex(els, p);
    VisiblePlace(els, |els|, p);
    var i := FieldList(els, |els|)[p];
    VisiblePlace(els, |els|, p + SuppressedCount(els, i));
  }

  /** Each date with a visible part has exactly one field. */
  lemma OneFieldPerDate(els: seq<Element>, i: nat) returns (p: nat)
    requires i < |els| && els[i].Visible() && els[i].DateBase().Some?
    ensures p < |FieldList(els, |els|)|
    ensures forall q: nat | q < |FieldList(els, |els|)| ::
              FieldList(els, |els|)[q] < |els| &&
              (els[FieldList(els, |els|)[q]].DateBase() == els[i].DateBase() <==> q == p)
  {
    var first := FirstPart(els, i);
    p := FieldAt(els, |els|, first);
    forall q: nat | q < |FieldList(els, |els|)|
      ensures FieldList(els, |els|)[q] < |els|
      ensures els[FieldList(els, |els|)[q]].DateBase() == els[i].DateBase() <==> q == p
    {
      FieldPlace(els, |els|, q);
      FieldPlace(els, |els|, p);
      var k := FieldList(els, |els|)[q];
      if els[k].DateBase() == els[i].DateBase() {
        assert !(first < k) && !(k < first);
      }
    }
  }

  lemma {:induction false} FirstPart(els: seq<Element>, i: nat) returns (first: nat)
    requires i < |els| && els[i].Visible() && els[i].DateBase().Some?
    ensures first <= i && els[first].Visible() && els[first].DateBase() == els[i].DateBase() && GetsField(els, first)
  {
    if Suppressed(els, i) {
      var j: nat :| j < i && els[j].Visible() && els[j].DateBase() == els[i].DateBase();
      first := FirstPart(els, j);
    } else {
      first := i;
    }
  }

  lemma {:induction false} FieldAt(els: seq<Element>, n: nat, i: nat) returns (p: nat)
    requires i < n <= |els| && GetsField(els, i)
    ensures p < |FieldList(els, n)| && FieldList(els, n)[p] == i
    decreases n
  {
    var front := FieldList(els, n - 1);
    if i < n - 1 {
      p := FieldAt(els, n - 1, i);
      assert front <= FieldList(els, n);
    } else {
      p := |front|;
      assert FieldList(els, n) == front + [i];
    }
  }
}
