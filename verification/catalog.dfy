/** The exercise catalog as the core sees it: lookup by id, the exact
    ("rigid") search used for the history suggestions, the fuzzy search used
    by voice-add, and the instruction lookup. */
module Catalog {
  import opened Common
  import opened Text

  /** An exercise document: its `_id`, `workout_name` and the optional
      `instruction` field. */
  datatype Exercise = Exercise(id: ExerciseId, workoutName: string, instruction: Option<string>)

  /** What `get_instruction` returns: the name and instruction text, or the
      error dictionary. */
  datatype InstructionResult =
    | Instruction(workoutName: string, text: string)
    | InstructionError(message: string)

  const NoInstructionText := "No instructions available for this exercise."

  /** `find_one({"_id": id})`: the first exercise with that id, if any. */
  function FindExercise(catalog: seq<Exercise>, id: ExerciseId): (r: Option<Exercise>)
    ensures r.None? <==> forall k :: 0 <= k < |catalog| ==> catalog[k].id != id
    ensures r.Some? ==> exists k :: 0 <= k < |catalog| && catalog[k] == r.value && r.value.id == id
                                    && forall j :: 0 <= j < k ==> catalog[j].id != id
  {
    if catalog == [] then None
    else if catalog[0].id == id then Some(catalog[0])
    else
      var rest := FindExercise(catalog[1..], id);
      if rest.Some? then
        ghost var k :| 0 <= k < |catalog[1..]| && catalog[1..][k] == rest.value
                       && forall j :: 0 <= j < k ==> catalog[1..][j].id != id;
        assert catalog[k + 1] == rest.value;
        rest
      else rest
  }

  /** The exercises `keep` holds of, in catalog order (what `find` with a
      filter returns, as a list). */
  function Select(catalog: seq<Exercise>, keep: Exercise -> bool): (r: seq<Exercise>)
    ensures |r| <= |catalog|
    ensures forall e :: e in r <==> e in catalog && keep(e)
  {
    if catalog == [] then []
    else (if keep(catalog[0]) then [catalog[0]] else []) + Select(catalog[1..], keep)
  }

  /** The exact-search filter: catalog key equal to the normalised query. */
  predicate IsRigidMatch(e: Exercise, query: string) {
    CatalogKey(e.workoutName) == Normalize(query)
  }

  /** The fuzzy-search filter: catalog key containing the normalised query. */
  predicate IsFuzzyMatch(e: Exercise, query: string) {
    Contains(CatalogKey(e.workoutName), Normalize(query))
  }

  /** `search_exercise_rigid`: the exercises whose catalog key equals the
      normalised query. */
  function SearchRigid(catalog: seq<Exercise>, query: string): (r: seq<Exercise>)
    ensures forall e :: e in r <==> e in catalog && CatalogKey(e.workoutName) == Normalize(query)
  {
    Select(catalog, (e: Exercise) => IsRigidMatch(e, query))
  }

  /** `search_exercise`: the exercises whose catalog key contains the
      normalised query (the query is read literally). */
  function SearchFuzzy(catalog: seq<Exercise>, query: string): (r: seq<Exercise>)
    ensures forall e :: e in r <==> e in catalog && Contains(CatalogKey(e.workoutName), Normalize(query))
  {
    Select(catalog, (e: Exercise) => IsFuzzyMatch(e, query))
  }

  /** `get_instruction`: the instruction text, the fixed default text when the
      exercise has no `instruction` field, or an error naming the id. */
  function GetInstruction(catalog: seq<Exercise>, id: ExerciseId): (r: InstructionResult)
    ensures r.InstructionError? <==> forall k :: 0 <= k < |catalog| ==> catalog[k].id != id
    ensures r.InstructionError? ==> r.message == "Exercise with ID " + id + " not found."
    ensures r.Instruction? ==>
              exists k :: 0 <= k < |catalog| && catalog[k].id == id
                          && (forall j :: 0 <= j < k ==> catalog[j].id != id)
                          && r.workoutName == catalog[k].workoutName
                          && r.text == (if catalog[k].instruction.Some? then catalog[k].instruction.value
                                        else NoInstructionText)
  {
    match FindExercise(catalog, id)
    case None => InstructionError("Exercise with ID " + id + " not found.")
    case Some(e) =>
      Instruction(e.workoutName, if e.instruction.Some? then e.instruction.value else NoInstructionText)
  }

  // ----- Lemmas -----

  lemma {:induction false} SelectConcat(a: seq<Exercise>, b: seq<Exercise>, keep: Exercise -> bool)
    ensures Select(a + b, keep) == Select(a, keep) + Select(b, keep)
  {
    if a == [] {
      assert a + b == b;
    } else {
      var head := if keep(a[0]) then [a[0]] else [];
      assert (a + b)[1..] == a[1..] + b;
      calc {
        Select(a + b, keep);
        head + Select(a[1..] + b, keep);
        { SelectConcat(a[1..], b, keep); }
        head + (Select(a[1..], keep) + Select(b, keep));
        Select(a, keep) + Select(b, keep);
      }
    }
  }

  /** The first exercise `Select` returns is the earliest one in the
      catalog that `keep` holds of. */
  lemma {:induction false} SelectFirst(catalog: seq<Exercise>, keep: Exercise -> bool) returns (i: nat)
    requires Select(catalog, keep) != []
    ensures i < |catalog| && Select(catalog, keep)[0] == catalog[i] && keep(catalog[i])
    ensures forall j :: 0 <= j < i ==> !keep(catalog[j])
  {
    if keep(catalog[0]) {
      i := 0;
    } else {
      var k := SelectFirst(catalog[1..], keep);
      i := k + 1;
    }
  }

  /** The fuzzy search results come in catalog order: searching a catalog
      made of two parts searches each part in turn. */
  lemma SearchFuzzyConcat(a: seq<Exercise>, b: seq<Exercise>, query: string)
    ensures SearchFuzzy(a + b, query) == SearchFuzzy(a, query) + SearchFuzzy(b, query)
  {
    SelectConcat(a, b, (e: Exercise) => IsFuzzyMatch(e, query));
  }

  /** The first fuzzy result, the one voice-add picks, is the earliest
      catalog exercise whose key contains the normalised query. */
  lemma SearchFuzzyFirst(catalog: seq<Exercise>, query: string) returns (i: nat)
    requires SearchFuzzy(catalog, query) != []
    ensures i < |catalog| && SearchFuzzy(catalog, query)[0] == catalog[i]
    ensures Contains(CatalogKey(catalog[i].workoutName), Normalize(query))
    ensures forall j :: 0 <= j < i ==> !Contains(CatalogKey(catalog[j].workoutName), Normalize(query))
  {
    i := SelectFirst(catalog, (e: Exercise) => IsFuzzyMatch(e, query));
  }

  /** The exact search results come in catalog order: searching a catalog
      made of two parts searches each part in turn. */
  lemma SearchRigidConcat(a: seq<Exercise>, b: seq<Exercise>, query: string)
    ensures SearchRigid(a + b, query) == SearchRigid(a, query) + SearchRigid(b, query)
  {
    SelectConcat(a, b, (e: Exercise) => IsRigidMatch(e, query));
  }

  /** Searching an exercise's own name finds it, provided the name holds no
      whitespace other than plain spaces. */
  lemma SearchRigidFindsOwnName(catalog: seq<Exercise>, e: Exercise)
    requires e in catalog
    requires forall c :: c in e.workoutName && IsSpace(c) ==> c == ' '
    ensures e in SearchRigid(catalog, e.workoutName)
  {
    CatalogKeyMatchesNormalize(e.workoutName);
  }

  /** An exercise whose name holds a tab, a non-breaking space or any other
      non-space whitespace is never found by the exact search. */
  lemma SearchRigidMissesOtherSpace(catalog: seq<Exercise>, e: Exercise, c: char, query: string)
    requires c in e.workoutName && IsSpace(c) && c != ' '
    ensures e !in SearchRigid(catalog, query)
  {
    CatalogKeyKeepsOtherSpace(e.workoutName, c, query);
  }

  /** Every exact match is also a fuzzy match. */
  lemma RigidWithinFuzzy(catalog: seq<Exercise>, query: string, e: Exercise)
    requires e in SearchRigid(catalog, query)
    ensures e in SearchFuzzy(catalog, query)
  {
    ContainsItself(CatalogKey(e.workoutName));
  }

  /** A one-exercise catalog whose key contains the query is found whole. */
  lemma FuzzyFindsSingle(e: Exercise, query: string)
    requires Contains(CatalogKey(e.workoutName), Normalize(query))
    ensures SearchFuzzy([e], query) == [e]
  {
    assert [e][1..] == [];
  }

  /** A query that normalises to nothing (only whitespace and hyphens) fuzzily
      matches the whole catalog, in order. */
  lemma {:induction false} FuzzyEmptyQueryMatchesAll(catalog: seq<Exercise>, query: string)
    requires Normalize(query) == []
    ensures SearchFuzzy(catalog, query) == catalog
  {
    var keep := (e: Exercise) => IsFuzzyMatch(e, query);
    if catalog != [] {
      var key := CatalogKey(catalog[0].workoutName);
      assert OccursAt(key, [], 0);
      assert keep(catalog[0]);
      FuzzyEmptyQueryMatchesAll(catalog[1..], query);
    }
  }
}
