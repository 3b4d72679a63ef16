/** The styling of multiple-choice options: before the answer is revealed the
    chosen option is filled and all are in the brand colour; after it, the right
    option is filled green, a wrong choice is outlined red and the rest are
    outlined grey. */
module MultipleChoice {
  import opened Types

  datatype Variant = Solid | Outline
  datatype Color = Brand | Green | Red | Gray

  /** `getVariant`. */
  function GetVariant(revealed: bool, selectedId: Option<string>, correctId: string, id: string): (v: Variant)
    ensures v == Solid <==> (if revealed then id == correctId else selectedId == Some(id))
  {
    if !revealed && selectedId == Some(id) then Solid
    else if !revealed then Outline
    else if id == correctId then Solid
    else if selectedId == Some(id) && id != correctId then Outline
    else Outline
  }

  /** `getColor`. */
  function GetColor(revealed: bool, selectedId: Option<string>, correctId: string, id: string): (c: Color)
    ensures c == Brand <==> !revealed
    ensures c == Green <==> revealed && id == correctId
    ensures c == Red <==> revealed && id != correctId && selectedId == Some(id)
  {
    if !revealed then Brand
    else if id == correctId then Green
    else if selectedId == Some(id) && id != correctId then Red
    else Gray
  }

  /** Each case of the option styling, as the quiz page shows it. */
  lemma StylingCases(revealed: bool, selectedId: Option<string>, correctId: string, id: string)
    ensures !revealed ==> GetColor(revealed, selectedId, correctId, id) == Brand
    ensures !revealed ==> (GetVariant(revealed, selectedId, correctId, id) == Solid <==> selectedId == Some(id))
    ensures revealed && id == correctId ==>
              GetVariant(revealed, selectedId, correctId, id) == Solid && GetColor(revealed, selectedId, correctId, id) == Green
    ensures revealed && id != correctId && selectedId == Some(id) ==>
              GetVariant(revealed, selectedId, correctId, id) == Outline && GetColor(revealed, selectedId, correctId, id) == Red
    ensures revealed && id != correctId && selectedId != Some(id) ==>
              GetVariant(revealed, selectedId, correctId, id) == Outline && GetColor(revealed, selectedId, correctId, id) == Gray
  {
  }

  /** After the reveal, an option is filled exactly when it is green. */
  lemma SolidIffGreen(selectedId: Option<string>, correctId: string, id: string)
    ensures GetVariant(true, selectedId, correctId, id) == Solid <==> GetColor(true, selectedId, correctId, id) == Green
  {
  }

  /** The positions of the options coloured `c`. */
  function Coloured(options: seq<McOption>, revealed: bool, selectedId: Option<string>, correctId: string, c: Color): (r: set<nat>)
    ensures forall k :: k in r ==> k < |options| && GetColor(revealed, selectedId, correctId, options[k].id) == c
    ensures forall k :: 0 <= k < |options| && GetColor(revealed, selectedId, correctId, options[k].id) == c ==> k in r
  {
    set k: nat | k < |options| && GetColor(revealed, selectedId, correctId, options[k].id) == c
  }

  /** Option ids are unique within a question. */
  ghost predicate UniqueIds(options: seq<McOption>) {
    forall i, j :: 0 <= i < j < |options| ==> options[i].id != options[j].id
  }

  /** With unique ids and the right answer among the options, the revealed
      colours exactly one option green, and at most one red: the wrong choice,
      if any. */
  lemma OneGreenAfterReveal(options: seq<McOption>, selectedId: Option<string>, correctId: string, c: nat)
    requires UniqueIds(options)
    requires c < |options| && options[c].id == correctId
    ensures Coloured(options, true, selectedId, correctId, Green) == {c}
    ensures |Coloured(options, true, selectedId, correctId, Red)| <= 1
    ensures (selectedId.Some? && selectedId != Some(correctId) && exists k :: 0 <= k < |options| && Some(options[k].id) == selectedId)
            ==> |Coloured(options, true, selectedId, correctId, Red)| == 1
  {
    var reds := Coloured(options, true, selectedId, correctId, Red);
    forall i, j | i in reds && j in reds ensures i == j {
      assert Some(options[i].id) == selectedId == Some(options[j].id);
    }
    if reds != {} {
      var i :| i in reds;
      assert reds == {i};
    }
    if selectedId.Some? && selectedId != Some(correctId) && (exists k :: 0 <= k < |options| && Some(options[k].id) == selectedId) {
      var k :| 0 <= k < |options| && Some(options[k].id) == selectedId;
      assert k in reds;
    }
  }
}
