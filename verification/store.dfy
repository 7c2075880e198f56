/**
 * The state and the two mutations of the application store in
 * `src/store/index.js`: the error triple shown to the user, and `story`, a
 * bounded log of serialised events kept for bug reports.
 */
module Store {
  import opened Wrappers

  /** The most entries `story` keeps. */
  const MAX_STORY_EVENTS: nat := 50

  /** An Error object attached for reports; opaque here. */
  datatype ErrorObject = ErrorObject(id: nat)

  /** The store's state; None stands for `null` (and for an absent payload field). */
  datatype State = State(
    errorTitle: Option<string>,
    errorSolution: Option<string>,
    error: Option<ErrorObject>,
    story: seq<string>)

  /** The state the store is created with. */
  const INITIAL_STATE: State := State(None, None, None, [])

  /** The payload of `setError`: `{title, solution, error}`. */
  datatype ErrorPayload = ErrorPayload(title: Option<string>, solution: Option<string>, error: Option<ErrorObject>)

  /** `setError`: copies the three payload fields into the state; `story` is untouched. */
  function SetError(s: State, payload: ErrorPayload): (r: State)
    ensures r.errorTitle == payload.title
    ensures r.errorSolution == payload.solution
    ensures r.error == payload.error
    ensures r.story == s.story
  {
    s.(errorTitle := payload.title, errorSolution := payload.solution, error := payload.error)
  }

  /**
   * `addStoryEvent`: appends the serialised payload (`JSON.stringify` is not
   * modelled; the entry arrives serialised) and, when that makes the log longer
   * than MAX_STORY_EVENTS, drops the oldest entry.
   */
  function AddStoryEvent(s: State, entry: string): (r: State)
    ensures |r.story| > 0 && r.story[|r.story| - 1] == entry
    ensures |s.story| < MAX_STORY_EVENTS ==> r.story == s.story + [entry]
    ensures |s.story| >= MAX_STORY_EVENTS ==> |r.story| == |s.story| && r.story[..|r.story| - 1] == s.story[1..]
    ensures |s.story| <= MAX_STORY_EVENTS ==> |r.story| <= MAX_STORY_EVENTS
    ensures r.errorTitle == s.errorTitle && r.errorSolution == s.errorSolution && r.error == s.error
  {
    var updated := s.story + [entry];
    if |updated| > MAX_STORY_EVENTS then
      assert updated[1..][..|updated| - 2] == s.story[1..];
      s.(story := updated[1..])
    else
      s.(story := updated)
  }

  /** A commit of one of the two mutations. */
  datatype Mutation = SetErrorOp(payload: ErrorPayload) | AddStoryEventOp(entry: string)

  function Commit(s: State, m: Mutation): State
  {
    match m
    case SetErrorOp(p) => SetError(s, p)
    case AddStoryEventOp(e) => AddStoryEvent(s, e)
  }

  /** The mutations committed in order. */
  function Replay(s: State, ms: seq<Mutation>): State
    decreases |ms|
  {
    if |ms| == 0 then s else Commit(Replay(s, ms[..|ms| - 1]), ms[|ms| - 1])
  }

  /** Every entry ever added, oldest first. */
  function Entries(ms: seq<Mutation>): seq<string>
    decreases |ms|
  {
    if |ms| == 0 then []
    else
      match ms[|ms| - 1]
      case AddStoryEventOp(e) => Entries(ms[..|ms| - 1]) + [e]
      case SetErrorOp(_) => Entries(ms[..|ms| - 1])
  }

  /** The payload of the last `setError`, if any. */
  function LastError(ms: seq<Mutation>): Option<ErrorPayload>
    decreases |ms|
  {
    if |ms| == 0 then None
    else
      match ms[|ms| - 1]
      case SetErrorOp(p) => Some(p)
      case AddStoryEventOp(_) => LastError(ms[..|ms| - 1])
  }

  /** The last n elements, or all when there are fewer. */
  function LastN(xs: seq<string>, n: nat): (r: seq<string>)
    ensures |r| == if |xs| <= n then |xs| else n
  {
    if |xs| <= n then xs else xs[|xs| - n..]
  }

  /**
   * From the initial state, `story` is always exactly the last
   * MAX_STORY_EVENTS entries added, in the order they were added (so never
   * more than 50), and the error triple is that of the last `setError`, or
   * null when there was none.
   */
  lemma {:induction false} ReplayFromInitial(ms: seq<Mutation>)
    ensures Replay(INITIAL_STATE, ms).story == LastN(Entries(ms), MAX_STORY_EVENTS)
    ensures |Replay(INITIAL_STATE, ms).story| <= MAX_STORY_EVENTS
    ensures var s := Replay(INITIAL_STATE, ms);
      match LastError(ms)
      case None => s.errorTitle == None && s.errorSolution == None && s.error == None
      case Some(p) => s.errorTitle == p.title && s.errorSolution == p.solution && s.error == p.error
    decreases |ms|
  {
    if |ms| > 0 {
      var prefix := ms[..|ms| - 1];
      ReplayFromInitial(prefix);
      var before := Replay(INITIAL_STATE, prefix);
      var all := Entries(prefix);
      match ms[|ms| - 1]
      case SetErrorOp(p) =>
      case AddStoryEventOp(e) =>
        assert Entries(ms) == all + [e];
        LastNSnoc(all, e, MAX_STORY_EVENTS);
    }
  }

  /** Keeping the last n of a log and then appending, dropping the oldest beyond n, keeps the last n of the longer log. */
  lemma LastNSnoc(xs: seq<string>, e: string, n: nat)
    requires n > 0
    ensures var kept := LastN(xs, n) + [e];
      LastN(xs + [e], n) == if |kept| > n then kept[1..] else kept
  {
    var kept := LastN(xs, n) + [e];
    if |xs| >= n {
      assert kept[1..] == (xs + [e])[|xs| + 1 - n..];
    } else {
      assert kept == xs + [e];
    }
  }
}
