/** Shared vocabulary: the optional-value wrapper used for Python's `None`,
    and the opaque identifiers the store is keyed by. */
module Common {

  /** `None` stands for Python's `None` (or an absent document field). */
  datatype Option<+T> = None | Some(value: T)

  /** The authenticated user's id (`current_user.id`), passed explicitly. */
  type UserId = string

  /** A catalog exercise's `_id`, kept as its string form. */
  type ExerciseId = string
}
