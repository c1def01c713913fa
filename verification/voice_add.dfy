/** Voice-add: the request handler that turns a transcript into a new to-do
    item, composed from the command parser, the fuzzy search and the to-do
    engine. The transcript is a parameter; receiving, converting and
    transcribing the audio are not part of this model. */
module VoiceAdd {
  import opened Common
  import opened Text
  import opened Catalog
  import opened TodoList
  import opened TodoProperties
  import opened Voice
  import opened VoiceExamples

  /** Where the handler stops: one case per `return` of the handler, plus the
      `ValueError` that `max` raises when no item carries an id. */
  datatype VoiceStatus =
    | Added                   // 200: added, and timed when a time was spoken
    | NoTranscript            // 500: the transcript is empty
    | NotParsed               // 400: no exercise name in the transcript
    | NotFound(name: string)  // 404: the fuzzy search found nothing
    | AddFailed               // 500: `add_todo` refused the exercise
    | LatestMissing           // 500: the latest id is `None` or 0
    | LatestRaised            // the latest-id lookup raised
    | TimeNotSaved            // 500: `edit_exercise` matched nothing

  /** The stopping point and the store left behind. Nothing is rolled back:
      a failure after the add keeps the added item. */
  datatype VoiceResult = VoiceResult(status: VoiceStatus, todos: Todos)

  /** The `working_time` field voice-add writes for a spoken duration. */
  function TimeField(d: Duration): Field {
    Str(WorkingTimeText(d))
  }

  /** `add_with_voice`: parse the transcript, add the first fuzzy match for
      the spoken name, then, if a duration was spoken, write it as the
      working time of the item with the latest id. */
  function AddWithVoice(catalog: seq<Exercise>, todos: Todos, user: UserId, transcript: string): (r: VoiceResult)
    ensures r.status.NoTranscript? <==> transcript == []
    ensures r.status.NotParsed? <==> transcript != [] && ParseVoiceCommand(transcript).None?
    ensures r.status.NotFound? <==>
              transcript != [] && ParseVoiceCommand(transcript).Some?
              && SearchFuzzy(catalog, ParseVoiceCommand(transcript).value.exercise) == []
    ensures r.status.NotFound? ==> r.status.name == ParseVoiceCommand(transcript).value.exercise
    ensures r.status.NoTranscript? || r.status.NotParsed? || r.status.NotFound? ==> r.todos == todos
  {
    if transcript == [] then VoiceResult(NoTranscript, todos)
    else match ParseVoiceCommand(transcript)
      case None => VoiceResult(NotParsed, todos)
      case Some(cmd) =>
        var found := SearchFuzzy(catalog, cmd.exercise);
        if found == [] then VoiceResult(NotFound(cmd.exercise), todos)
        else AddAndTime(catalog, todos, user, found[0].id, cmd.time)
  }

  /** The handler after the search: add the exercise, then write the time
      if one was spoken. */
  function AddAndTime(catalog: seq<Exercise>, todos: Todos, user: UserId, id: ExerciseId,
                      time: Option<Duration>): (r: VoiceResult)
    ensures !r.status.NoTranscript? && !r.status.NotParsed? && !r.status.NotFound?
  {
    var added := AddTodo(catalog, todos, user, id, None, None, None);
    if !added.ok then VoiceResult(AddFailed, added.todos)
    else if time.None? then VoiceResult(Added, added.todos)
    else SaveTime(added.todos, user, time.value)
  }

  /** `get_latest_todo_id` followed by `edit_exercise` of the working time;
      the id must be truthy, so `None` and 0 both stop the handler. */
  function SaveTime(todos: Todos, user: UserId, d: Duration): (r: VoiceResult)
    ensures r.status.Added? || r.status.LatestMissing? || r.status.LatestRaised? || r.status.TimeNotSaved?
    ensures !r.status.Added? ==> r.todos == todos
  {
    match GetLatestTodoId(todos, user)
    case NoItems => VoiceResult(LatestMissing, todos)
    case NoIdError => VoiceResult(LatestRaised, todos)
    case LatestId(id) =>
      if id == 0 then VoiceResult(LatestMissing, todos)
      else
        var edited := EditExercise(todos, user, id, Some(TimeField(d)), None, None);
        if !edited.ok then VoiceResult(TimeNotSaved, edited.todos)
        else VoiceResult(Added, edited.todos)
  }

  /** The new item: the next id, the exercise, the working time when one is
      written, and nothing else set. */
  function VoiceItem(todos: Todos, user: UserId, e: Exercise, workingTime: Option<Field>): TodoItem {
    TodoItem(Some(NextId(todos, user)), e.id, e.workoutName, workingTime, None, None)
  }

  // ----- Lemmas -----

  /** Every fuzzy match is in the catalog, so `add_todo` finds its id. */
  lemma MatchIsAddable(catalog: seq<Exercise>, name: string)
    requires SearchFuzzy(catalog, name) != []
    ensures FindExercise(catalog, SearchFuzzy(catalog, name)[0].id).Some?
  {
    var e := SearchFuzzy(catalog, name)[0];
    assert e in SearchFuzzy(catalog, name);
    var k :| 0 <= k < |catalog| && catalog[k] == e;
  }

  /** Writing the time onto a list whose last item holds the largest id,
      and is the only one holding it: with a truthy id the last item, and
      only it, gets the working time; with id 0 nothing changes. */
  lemma SaveTimeOnLast(todos: Todos, user: UserId, d: Duration, n: int)
    requires GetTodo(todos, user) != []
    requires GetLatestTodoId(todos, user) == LatestId(n)
    requires HasId(GetTodo(todos, user), n) && FirstIndex(GetTodo(todos, user), n) == |GetTodo(todos, user)| - 1
    ensures var r := SaveTime(todos, user, d);
            var items := GetTodo(todos, user);
            var last := |items| - 1;
            && (r.status.LatestMissing? <==> n == 0)
            && (r.status.Added? <==> n != 0)
            && (r.status.Added? ==>
                  && r.todos.Keys == todos.Keys
                  && (forall u :: u in todos && u != user ==> r.todos[u] == todos[u])
                  && GetTodo(r.todos, user) == items[..last] + [items[last].(workingTime := Some(TimeField(d)))])
  {
    var r := SaveTime(todos, user, d);
    var items := GetTodo(todos, user);
    var last := |items| - 1;
    if n != 0 {
      var edited := EditExercise(todos, user, n, Some(TimeField(d)), None, None);
      assert r.todos == edited.todos;
      var after := GetTodo(edited.todos, user);
      assert after == items[..last] + [items[last].(workingTime := Some(TimeField(d)))];
    }
  }

  /** The handler after a successful search: the add always succeeds, the
      user's list gains exactly one item at the end, built from the
      exercise, holding the spoken duration unless the new id is 0, in which
      case the handler stops without it. Other users are untouched. */
  lemma AddAndTimeAppends(catalog: seq<Exercise>, todos: Todos, user: UserId, id: ExerciseId,
                          time: Option<Duration>)
    requires FindExercise(catalog, id).Some?
    ensures var r := AddAndTime(catalog, todos, user, id, time);
            var e := FindExercise(catalog, id).value;
            var timed := r.status.Added? && time.Some?;
            && (r.status.Added? || r.status.LatestMissing?)
            && (r.status.LatestMissing? <==> time.Some? && NextId(todos, user) == 0)
            && r.todos.Keys == todos.Keys + {user}
            && (forall u :: u in todos && u != user ==> r.todos[u] == todos[u])
            && GetTodo(r.todos, user) == GetTodo(todos, user)
                 + [VoiceItem(todos, user, e, if timed then Some(TimeField(time.value)) else None)]
  {
    var e := FindExercise(catalog, id).value;
    var added := AddTodo(catalog, todos, user, id, None, None, None);
    var before := GetTodo(todos, user);
    var n := NextId(todos, user);
    assert GetTodo(added.todos, user) == before + [VoiceItem(todos, user, e, None)];
    if time.Some? {
      AddedItemIsLatest(catalog, todos, user, id, None, None, None);
      SaveTimeOnLast(added.todos, user, time.value, n);
      assert (before + [VoiceItem(todos, user, e, None)])[..|before|] == before;
    }
  }

  /** Once an exercise is found, the handler never fails to add it, never
      hits the `ValueError`, and never fails to save the time: the new item
      always carries the largest id, so the edit always finds it. */
  lemma VoiceAddNeverFailsAfterSearch(catalog: seq<Exercise>, todos: Todos, user: UserId, transcript: string)
    ensures var r := AddWithVoice(catalog, todos, user, transcript);
            !r.status.AddFailed? && !r.status.LatestRaised? && !r.status.TimeNotSaved?
  {
    var cmd := ParseVoiceCommand(transcript);
    if transcript != [] && cmd.Some? && SearchFuzzy(catalog, cmd.value.exercise) != [] {
      var found := SearchFuzzy(catalog, cmd.value.exercise);
      MatchIsAddable(catalog, cmd.value.exercise);
      AddAndTimeAppends(catalog, todos, user, found[0].id, cmd.value.time);
    }
  }

  /** What a handler that got as far as the add leaves in the store: the
      user's list gains exactly one item at the end, built from the first
      fuzzy match, holding the spoken duration exactly when the handler
      succeeded and a duration was spoken; every other user is untouched. */
  lemma VoiceAddAppendsOneItem(catalog: seq<Exercise>, todos: Todos, user: UserId, transcript: string)
    requires AddWithVoice(catalog, todos, user, transcript).status.Added?
             || AddWithVoice(catalog, todos, user, transcript).status.LatestMissing?
    ensures var r := AddWithVoice(catalog, todos, user, transcript);
            var cmd := ParseVoiceCommand(transcript).value;
            var found := SearchFuzzy(catalog, cmd.exercise);
            var e := FindExercise(catalog, found[0].id).value;
            var time := if r.status.Added? && cmd.time.Some? then Some(TimeField(cmd.time.value)) else None;
            && e.id == found[0].id
            && r.todos.Keys == todos.Keys + {user}
            && (forall u :: u in todos && u != user ==> r.todos[u] == todos[u])
            && GetTodo(r.todos, user) == GetTodo(todos, user) + [VoiceItem(todos, user, e, time)]
  {
    var cmd := ParseVoiceCommand(transcript).value;
    var found := SearchFuzzy(catalog, cmd.exercise);
    MatchIsAddable(catalog, cmd.exercise);
    AddAndTimeAppends(catalog, todos, user, found[0].id, cmd.time);
  }

  /** The exercise voice-add appends is the earliest catalog exercise whose
      key contains the spoken name, normalised: `exercises[0]` of a search
      that keeps catalog order. */
  lemma VoiceAddTakesEarliestMatch(catalog: seq<Exercise>, todos: Todos, user: UserId, transcript: string)
    returns (i: nat)
    requires AddWithVoice(catalog, todos, user, transcript).status.Added?
             || AddWithVoice(catalog, todos, user, transcript).status.LatestMissing?
    ensures var name := ParseVoiceCommand(transcript).value.exercise;
            && i < |catalog|
            && Contains(CatalogKey(catalog[i].workoutName), Normalize(name))
            && (forall j :: 0 <= j < i ==> !Contains(CatalogKey(catalog[j].workoutName), Normalize(name)))
    ensures var added := GetTodo(AddWithVoice(catalog, todos, user, transcript).todos, user);
            added != [] && added[|added| - 1].exerciseId == catalog[i].id
  {
    var cmd := ParseVoiceCommand(transcript).value;
    VoiceAddAppendsOneItem(catalog, todos, user, transcript);
    i := SearchFuzzyFirst(catalog, cmd.exercise);
  }

  /** The handler stops with "failed to retrieve the latest item" exactly
      when a duration was spoken, an exercise was found, and the new item's
      id is 0, which Python treats as false. */
  lemma VoiceAddMissingIffIdZero(catalog: seq<Exercise>, todos: Todos, user: UserId, transcript: string)
    ensures AddWithVoice(catalog, todos, user, transcript).status.LatestMissing? <==>
              && transcript != []
              && ParseVoiceCommand(transcript).Some?
              && SearchFuzzy(catalog, ParseVoiceCommand(transcript).value.exercise) != []
              && ParseVoiceCommand(transcript).value.time.Some?
              && NextId(todos, user) == 0
  {
    var cmd := ParseVoiceCommand(transcript);
    if transcript != [] && cmd.Some? && SearchFuzzy(catalog, cmd.value.exercise) != [] {
      var found := SearchFuzzy(catalog, cmd.value.exercise);
      MatchIsAddable(catalog, cmd.value.exercise);
      AddAndTimeAppends(catalog, todos, user, found[0].id, cmd.value.time);
    }
  }

  /** On a store whose lists were built by the engine, every id is at least
      1000, so the next id is never 0. */
  lemma NextIdOfValidList(todos: Todos, user: UserId)
    requires ValidList(GetTodo(todos, user))
    ensures NextId(todos, user) >= FirstTodoId
  {
    var items := GetTodo(todos, user);
    if items != [] {
      assert IdOrDefault(items[0]) >= FirstTodoId;
    }
  }

  /** On a valid store the handler never stops at the latest-id check, and
      whatever it does leaves the store valid. */
  lemma VoiceAddOnValidStore(catalog: seq<Exercise>, todos: Todos, user: UserId, transcript: string)
    requires ValidStore(todos)
    ensures var r := AddWithVoice(catalog, todos, user, transcript);
            !r.status.LatestMissing? && ValidStore(r.todos)
  {
    var r := AddWithVoice(catalog, todos, user, transcript);
    var cmd := ParseVoiceCommand(transcript);
    if transcript == [] || cmd.None? || SearchFuzzy(catalog, cmd.value.exercise) == [] {
      assert r.todos == todos;
    } else {
      var found := SearchFuzzy(catalog, cmd.value.exercise);
      assert r == AddAndTime(catalog, todos, user, found[0].id, cmd.value.time);
      if user in todos {
        assert ValidList(GetTodo(todos, user));
      }
      NextIdOfValidList(todos, user);
      MatchIsAddable(catalog, cmd.value.exercise);
      AddAndTimeAppends(catalog, todos, user, found[0].id, cmd.value.time);
      AddAndTimeKeepsValid(catalog, todos, user, found[0].id, cmd.value.time);
    }
  }

  /** Adding and timing keeps a valid store valid. */
  lemma AddAndTimeKeepsValid(catalog: seq<Exercise>, todos: Todos, user: UserId, id: ExerciseId,
                             time: Option<Duration>)
    requires ValidStore(todos)
    requires FindExercise(catalog, id).Some?
    ensures ValidStore(AddAndTime(catalog, todos, user, id, time).todos)
  {
    var added := AddTodo(catalog, todos, user, id, None, None, None);
    AddPreservesValid(catalog, todos, user, id, None, None, None);
    if time.Some? {
      AddedItemIsLatest(catalog, todos, user, id, None, None, None);
      EditPreservesValid(added.todos, user, NextId(todos, user), Some(TimeField(time.value)), None, None);
    }
  }

  // ----- Worked requests -----

  /** A one-exercise catalog holding "Push-Up". */
  function PushUpCatalog(): seq<Exercise> {
    [Exercise("e1", "Push-Up", None)]
  }

  /** "Push Up" finds "Push-Up": both sides reduce to "pushup". */
  lemma PushUpFound()
    ensures SearchFuzzy(PushUpCatalog(), "Push Up") == PushUpCatalog()
  {
    PushUpContained();
    FuzzyFindsSingle(Exercise("e1", "Push-Up", None), "Push Up");
  }

  /** The outcome of a request whose transcript parses to `cmd` and whose
      search finds `e` first: the list gains `e` with the next id, timed
      when a time was spoken and the id is truthy. */
  lemma VoiceAddOutcome(catalog: seq<Exercise>, todos: Todos, user: UserId, transcript: string,
                        cmd: VoiceCommand, e: Exercise)
    requires transcript != [] && ParseVoiceCommand(transcript) == Some(cmd)
    requires SearchFuzzy(catalog, cmd.exercise) != [] && SearchFuzzy(catalog, cmd.exercise)[0] == e
    requires FindExercise(catalog, e.id) == Some(e)
    ensures var r := AddWithVoice(catalog, todos, user, transcript);
            var timed := cmd.time.Some? && NextId(todos, user) != 0;
            && (if timed || cmd.time.None? then r.status.Added? else r.status.LatestMissing?)
            && GetTodo(r.todos, user) == GetTodo(todos, user)
                 + [VoiceItem(todos, user, e, if timed then Some(TimeField(cmd.time.value)) else None)]
  {
    MatchIsAddable(catalog, cmd.exercise);
    assert AddWithVoice(catalog, todos, user, transcript) == AddAndTime(catalog, todos, user, e.id, cmd.time);
    AddAndTimeAppends(catalog, todos, user, e.id, cmd.time);
  }

  /** The spoken request of the worked examples. */
  function PushUpTranscript(): string {
    "exercise \"Push Up\" for 2 minutes 30 seconds"
  }

  /** Whatever the store, saying "exercise "Push Up" for 2 minutes 30
      seconds" appends "Push-Up" with the next id, timed "2:30" unless that
      id is 0. */
  lemma PushUpRequest(todos: Todos, user: UserId)
    ensures var r := AddWithVoice(PushUpCatalog(), todos, user, PushUpTranscript());
            var n := NextId(todos, user);
            && (if n != 0 then r.status.Added? else r.status.LatestMissing?)
            && GetTodo(r.todos, user) == GetTodo(todos, user)
                 + [TodoItem(Some(n), "e1", "Push-Up", if n != 0 then Some(Str("2:30")) else None, None, None)]
  {
    ParseFullCommandExample();
    PushUpFound();
    WorkingTimeExamples();
    VoiceAddOutcome(PushUpCatalog(), todos, user, PushUpTranscript(),
                    VoiceCommand("Push Up", Some(Duration(2, 30))), Exercise("e1", "Push-Up", None));
  }

  /** A user with no list says "exercise "Push Up" for 2 minutes 30
      seconds": the list becomes one item, id 1000, timed "2:30". */
  lemma VoiceAddPushUpExample()
    ensures var r := AddWithVoice(PushUpCatalog(), map[], "u", PushUpTranscript());
            && r.status.Added?
            && GetTodo(r.todos, "u") == [TodoItem(Some(1000), "e1", "Push-Up", Some(Str("2:30")), None, None)]
  {
    PushUpRequest(map[], "u");
  }

  /** The working time text is not zero-padded: 2 minutes 5 seconds is
      written "2:5". */
  lemma WorkingTimeExamples()
    ensures WorkingTimeText(Duration(2, 30)) == "2:30"
    ensures WorkingTimeText(Duration(2, 5)) == "2:5"
  {
    assert NatToDecimal(30) == NatToDecimal(3) + [DigitChar(0)];
  }

  /** A list holding only the id -1. */
  function StrayStore(): Todos {
    map["u" := TodoDoc(Some([TodoItem(Some(-1), "e0", "Plank", None, None, None)]))]
  }

  lemma StrayStoreNextId()
    ensures GetTodo(StrayStore(), "u") == [TodoItem(Some(-1), "e0", "Plank", None, None, None)]
    ensures NextId(StrayStore(), "u") == 0
  {
  }

  /** A list holding a stray id of -1 gives the new item the id 0: the
      handler adds the item, then answers "failed to retrieve the latest
      item" and keeps the item, untimed. */
  lemma VoiceAddIdZeroExample()
    ensures var r := AddWithVoice(PushUpCatalog(), StrayStore(), "u", PushUpTranscript());
            && r.status.LatestMissing?
            && GetTodo(r.todos, "u") == [TodoItem(Some(-1), "e0", "Plank", None, None, None),
                                         TodoItem(Some(0), "e1", "Push-Up", None, None, None)]
  {
    var plank := TodoItem(Some(-1), "e0", "Plank", None, None, None);
    var added := TodoItem(Some(0), "e1", "Push-Up", None, None, None);
    StrayStoreNextId();
    PushUpRequest(StrayStore(), "u");
    var r := AddWithVoice(PushUpCatalog(), StrayStore(), "u", PushUpTranscript());
    assert GetTodo(r.todos, "u") == [plank] + [added];
  }
}
