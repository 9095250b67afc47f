/** `MixBot/Models/DrinkServeStatus.swift`: the serving progress of a whole
    drink, updated one ingredient at a time. The struct's list of ingredient
    statuses is a field the update reassigns. */
module Serving {
  import opened Drinks

  /** The fields `updateIngredientStatusIdx` reads and writes, as one value. */
  datatype ServeView = ServeView(ingredients: seq<IngredientServeStatus>, totalWeightServed: real, done: bool)

  /** The part of the update that is the same as written and as intended:
      the ingredient's weight is overwritten; when it is reported done it is
      marked done and its weight is added to the total. */
  function Recorded(v: ServeView, idx: int, weight: real, isDone: bool): (r: ServeView)
    requires 0 <= idx < |v.ingredients|
    ensures |r.ingredients| == |v.ingredients| && r.done == v.done
    ensures r.ingredients[idx].ingredient == v.ingredients[idx].ingredient
    ensures r.ingredients[idx].weightServed == weight
    ensures r.ingredients[idx].done == (v.ingredients[idx].done || isDone)
    ensures forall j :: 0 <= j < |v.ingredients| && j != idx ==> r.ingredients[j] == v.ingredients[j]
    ensures r.totalWeightServed == v.totalWeightServed + (if isDone then weight else 0.0)
  {
    var ings := v.ingredients[idx := v.ingredients[idx].(weightServed := weight)];
    if isDone then
      ServeView(ings[idx := ings[idx].(done := isDone)], v.totalWeightServed + weight, v.done)
    else
      ServeView(ings, v.totalWeightServed, v.done)
  }

  /** The closing test as written: the index one below the count. */
  predicate ClosesAsWritten(idx: int, count: int) {
    idx - 1 == count
  }

  /** The closing test as intended: the index of the last ingredient. */
  predicate Closes(idx: int, count: int) {
    idx + 1 == count
  }

  /** `updateIngredientStatusIdx` as written. Because the index must be a
      valid one (anything else traps), the closing test never passes and the
      drink is never marked done. */
  function UpdatedAsWritten(v: ServeView, idx: int, weight: real, isDone: bool): (r: ServeView)
    requires 0 <= idx < |v.ingredients|
    ensures r.done == v.done
    ensures r.ingredients == Recorded(v, idx, weight, isDone).ingredients
    ensures r.totalWeightServed == Recorded(v, idx, weight, isDone).totalWeightServed
  {
    var r := Recorded(v, idx, weight, isDone);
    if isDone && ClosesAsWritten(idx, |r.ingredients|) then r.(done := true) else r
  }

  /** `updateIngredientStatusIdx` with the intended test: the drink is done
      once its last ingredient is reported done, and at no other time. */
  function Updated(v: ServeView, idx: int, weight: real, isDone: bool): (r: ServeView)
    requires 0 <= idx < |v.ingredients|
    ensures r.done <==> v.done || (isDone && idx == |v.ingredients| - 1)
    ensures r.ingredients == Recorded(v, idx, weight, isDone).ingredients
    ensures r.totalWeightServed == Recorded(v, idx, weight, isDone).totalWeightServed
  {
    var r := Recorded(v, idx, weight, isDone);
    if isDone && Closes(idx, |r.ingredients|) then r.(done := true) else r
  }

  /** `struct DrinkServeStatus` */
  class DrinkServeStatus {
    var drink: Drink
    var ingredients: seq<IngredientServeStatus>
    var totalWeightServed: real
    var done: bool
    var glassSize: real

    /** The memberwise initialiser; Swift lets a caller leave out `done`,
        which then is `false`. */
    constructor (drink: Drink, ingredients: seq<IngredientServeStatus>, totalWeightServed: real,
                 done: bool, glassSize: real)
      ensures this.drink == drink && this.glassSize == glassSize
      ensures View() == ServeView(ingredients, totalWeightServed, done)
    {
      this.drink := drink;
      this.ingredients := ingredients;
      this.totalWeightServed := totalWeightServed;
      this.done := done;
      this.glassSize := glassSize;
    }

    function View(): ServeView
      reads this
    {
      ServeView(ingredients, totalWeightServed, done)
    }

    /** `updateIngredientStatusIdx(idx:weight:done:)` as written. */
    method UpdateIngredientStatusIdx(idx: int, weight: real, isDone: bool)
      requires 0 <= idx < |ingredients|
      modifies this`ingredients, this`totalWeightServed, this`done
      ensures View() == UpdatedAsWritten(old(View()), idx, weight, isDone)
    {
      ingredients := ingredients[idx := ingredients[idx].(weightServed := weight)];
      if isDone {
        ingredients := ingredients[idx := ingredients[idx].(done := isDone)];
        totalWeightServed := totalWeightServed + weight;
        if ClosesAsWritten(idx, |ingredients|) {
          done := true;
        }
      }
    }

    /** `updateIngredientStatusIdx(idx:weight:done:)` with the intended
        closing test. */
    method UpdateIngredientStatusIdxCorrected(idx: int, weight: real, isDone: bool)
      requires 0 <= idx < |ingredients|
      modifies this`ingredients, this`totalWeightServed, this`done
      ensures View() == Updated(old(View()), idx, weight, isDone)
    {
      ingredients := ingredients[idx := ingredients[idx].(weightServed := weight)];
      if isDone {
        ingredients := ingredients[idx := ingredients[idx].(done := isDone)];
        totalWeightServed := totalWeightServed + weight;
        if Closes(idx, |ingredients|) {
          done := true;
        }
      }
    }
  }

  // ------------------------------------------------------------- lemmas

  /** A one-ingredient drink whose only ingredient is reported done: as
      written the drink stays not done; as intended it is done. */
  lemma NeverClosesExample(g: Ingredient, w: real)
    ensures var v := ServeView([IngredientServeStatus(g, false, 0.0)], 0.0, false);
      var a := UpdatedAsWritten(v, 0, w, true);
      var b := Updated(v, 0, w, true);
      a.ingredients[0].done && !a.done && b.ingredients[0].done && b.done
  {
  }

  /** A report for one ingredient: its index, the weight and whether it is done. */
  datatype Report = Report(idx: int, weight: real, isDone: bool)

  predicate ValidReports(rs: seq<Report>, count: int) {
    forall i :: 0 <= i < |rs| ==> 0 <= rs[i].idx < count
  }

  /** The status after each report in turn, with the intended test. */
  ghost function UpdatedAll(v: ServeView, rs: seq<Report>): ServeView
    requires ValidReports(rs, |v.ingredients|)
    decreases |rs|
  {
    if rs == [] then v
    else
      var r := Updated(v, rs[0].idx, rs[0].weight, rs[0].isDone);
      UpdatedAll(r, rs[1..])
  }

  /** The status after each report in turn, as written. */
  ghost function UpdatedAllAsWritten(v: ServeView, rs: seq<Report>): ServeView
    requires ValidReports(rs, |v.ingredients|)
    decreases |rs|
  {
    if rs == [] then v
    else
      var r := UpdatedAsWritten(v, rs[0].idx, rs[0].weight, rs[0].isDone);
      UpdatedAllAsWritten(r, rs[1..])
  }

  /** The weight of the reports that say done. */
  function DoneWeight(rs: seq<Report>): real {
    if rs == [] then 0.0 else (if rs[0].isDone then rs[0].weight else 0.0) + DoneWeight(rs[1..])
  }

  /** As written, no sequence of reports ever marks a drink done, while its
      total grows by exactly the weights reported done. */
  lemma {:induction false} AsWrittenNeverDone(v: ServeView, rs: seq<Report>)
    requires ValidReports(rs, |v.ingredients|)
    ensures UpdatedAllAsWritten(v, rs).done == v.done
    ensures UpdatedAllAsWritten(v, rs).totalWeightServed == v.totalWeightServed + DoneWeight(rs)
    decreases |rs|
  {
    if rs != [] {
      var r := UpdatedAsWritten(v, rs[0].idx, rs[0].weight, rs[0].isDone);
      assert ValidReports(rs[1..], |r.ingredients|);
      AsWrittenNeverDone(r, rs[1..]);
    }
  }

  /** With the intended test, a sequence of reports marks the drink done
      exactly when one of them reports the last ingredient done; the total
      grows by exactly the weights reported done. */
  lemma {:induction false} DoneIffLastReported(v: ServeView, rs: seq<Report>)
    requires ValidReports(rs, |v.ingredients|)
    ensures UpdatedAll(v, rs).done <==>
      v.done || exists i :: 0 <= i < |rs| && rs[i].isDone && rs[i].idx == |v.ingredients| - 1
    ensures UpdatedAll(v, rs).totalWeightServed == v.totalWeightServed + DoneWeight(rs)
    decreases |rs|
  {
    if rs != [] {
      var r := Updated(v, rs[0].idx, rs[0].weight, rs[0].isDone);
      assert ValidReports(rs[1..], |r.ingredients|);
      DoneIffLastReported(r, rs[1..]);
      var last := |v.ingredients| - 1;
      if exists i :: 0 <= i < |rs| && rs[i].isDone && rs[i].idx == last {
        var i :| 0 <= i < |rs| && rs[i].isDone && rs[i].idx == last;
        if i > 0 {
          assert rs[1..][i - 1] == rs[i];
        }
      }
      if exists i :: 0 <= i < |rs[1..]| && rs[1..][i].isDone && rs[1..][i].idx == last {
        var i :| 0 <= i < |rs[1..]| && rs[1..][i].isDone && rs[1..][i].idx == last;
        assert rs[i + 1] == rs[1..][i];
      }
    }
  }
}
