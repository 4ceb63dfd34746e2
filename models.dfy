/**
 * The four record shapes of the schema, with their field defaults.
 * Users are external identities known only by their id; record ids are the
 * tables' primary keys.
 */
module Models {
  import opened Dates

  type UserId = nat
  type GoalId = nat
  type ChallengeId = nat

  /** A user's recurring goal with one flag per weekday. */
  datatype Goal = Goal(
    id: GoalId, name: string, description: string, user: UserId,
    monday: bool, tuesday: bool, wednesday: bool, thursday: bool,
    friday: bool, saturday: bool, sunday: bool)
  {
    /** The weekday-number-to-flag map of the tracker and the calendar (0 = Monday ... 6 = Sunday); False for any other key. */
    predicate ScheduledOn(wd: int) {
      match wd
      case 0 => monday
      case 1 => tuesday
      case 2 => wednesday
      case 3 => thursday
      case 4 => friday
      case 5 => saturday
      case 6 => sunday
      case _ => false
    }
  }

  /** Whether a goal was done on a date; one record per (goal, date). */
  datatype GoalCompletion = GoalCompletion(goal: GoalId, date: Date, completed: bool)

  /** A user's dated grouping of goals; start and end are not ordered by any constraint. */
  datatype Challenge = Challenge(
    id: ChallengeId, user: UserId, startDate: Date, endDate: Date, goals: set<GoalId>)

  /** A signup allow-list row; the email is unique. */
  datatype WhitelistedEmail = WhitelistedEmail(email: string, active: bool)

  /** A goal created with only its required fields: description blank, no weekday set. */
  function NewGoal(id: GoalId, name: string, user: UserId): (g: Goal)
    ensures g.id == id && g.name == name && g.user == user && g.description == ""
    ensures forall wd :: !g.ScheduledOn(wd)
  {
    Goal(id, name, "", user, false, false, false, false, false, false, false)
  }

  /** A completion record created with only its key: not completed. */
  function NewCompletion(goal: GoalId, date: Date): (c: GoalCompletion)
    ensures c.goal == goal && c.date == date && !c.completed
  {
    GoalCompletion(goal, date, false)
  }

  /** A whitelist row created with only its email: active. */
  function NewWhitelistedEmail(email: string): (w: WhitelistedEmail)
    ensures w.email == email && w.active
  {
    WhitelistedEmail(email, true)
  }
}
