/**
 * The menu of `main`: the `enum Menu` codes, how one answer read with
 * `scanf("%d", &answer)` is dispatched, and one round of the main loop run
 * against the store. The loop itself is the repetition of rounds until EXIT.
 */
module MainMenu {
  import opened Wrappers
  import opened People
  import opened Format
  import opened Store

  /** enum Menu: the five actions of the menu. */
  datatype Menu = Add | Delete | Search | List | Exit

  /** The number each action has in `enum Menu` (ADD = 1, then consecutive). */
  function Code(m: Menu): (c: int)
    ensures 1 <= c <= 5
  {
    match m
    case Add => 1
    case Delete => 2
    case Search => 3
    case List => 4
    case Exit => 5
  }

  /** The `case` of main's switch an answer selects; None is the `default` branch. */
  function FromAnswer(answer: int): (r: Option<Menu>)
    ensures r.Some? <==> 1 <= answer <= 5
    ensures r.Some? ==> Code(r.value) == answer
  {
    if answer == 1 then Some(Add)
    else if answer == 2 then Some(Delete)
    else if answer == 3 then Some(Search)
    else if answer == 4 then Some(List)
    else if answer == 5 then Some(Exit)
    else None
  }

  /** What `scanf("%d", &answer)` delivers: a number, or input that is not one. */
  datatype Answer = Entered(n: int) | NotANumber

  /** What main does with one answer. */
  datatype Step =
    | Run(action: Menu)   // one of the switch's cases
    | InvalidInput        // getchar reads up to the next newline (a loop that never ends at
                          // end of input), then "Invalid input, please enter a number"
    | UnknownChoice       // the switch's default: "Invalid choice"

  function Dispatch(a: Answer): (r: Step)
    ensures r.InvalidInput? <==> a.NotANumber?
    ensures r.Run? <==> a.Entered? && 1 <= a.n <= 5
    ensures r.Run? ==> Code(r.action) == a.n
  {
    match a
    case NotANumber => InvalidInput
    case Entered(n) =>
      match FromAnswer(n)
      case Some(m) => Run(m)
      case None => UnknownChoice
  }

  /** Each action has its own code, and that code selects it back. */
  lemma CodeRoundTrip(m: Menu, other: Menu)
    ensures FromAnswer(Code(m)) == Some(m)
    ensures Code(m) == Code(other) ==> m == other
  {
  }

  /** Only the answer 5 ends the program. */
  lemma OnlyExitEnds(a: Answer)
    ensures Dispatch(a) == Run(Exit) <==> a == Entered(5)
  {
  }

  /**
   * The input one round consumes: the menu answer, then what the chosen
   * function reads from the console (a new record for add_person, a first
   * name for search_person and delete_person, the record number for
   * delete_person).
   */
  datatype Round = Round(answer: Answer, person: Person, name: string, choice: int)

  /** What one round reports. */
  datatype Outcome =
    | Ignored(step: Step)           // not a number, or not 1..5
    | AddDone(added: bool)          // add_person: stored, or "List is full"
    | DeleteDone(delete: DeleteReport)
    | SearchDone(search: SearchReport)
    | ListDone(list: ListReport)
    | Exited(saved: string)         // save_people's text, then "Goodbye!"

  /** The records after one round, given the records before it. */
  function After(s: seq<Person>, r: Round): (t: seq<Person>)
    ensures |s| <= MAX_PEOPLE ==> |t| <= MAX_PEOPLE
    ensures Dispatch(r.answer) != Run(Add) && Dispatch(r.answer) != Run(Delete) ==> t == s
  {
    match Dispatch(r.answer)
    case Run(Add) => if |s| < MAX_PEOPLE then s + [r.person] else s
    case Run(Delete) =>
      var d := DeleteOf(s, r.name, r.choice);
      if d.Deleted? then RemoveAt(s, d.index) else s
    case _ => s
  }

  /** A round keeps every record storable when the record it adds is. */
  lemma {:induction false} AfterStorable(s: seq<Person>, r: Round)
    requires AllStorable(s) && Storable(r.person)
    ensures AllStorable(After(s, r))
  {
    match Dispatch(r.answer)
    case Run(Add) =>
      if |s| < MAX_PEOPLE {
        var t := s + [r.person];
        assert forall i :: 0 <= i < |t| ==> t[i] == if i < |s| then s[i] else r.person;
      }
    case Run(Delete) =>
      var d := DeleteOf(s, r.name, r.choice);
      if d.Deleted? {
        var t := RemoveAt(s, d.index);
        assert forall i :: 0 <= i < |t| ==> t[i] == if i < d.index then s[i] else s[i + 1];
      }
    case _ =>
  }

  /** One pass of main's loop body on the store, for the answer and inputs of `r`. */
  method RunRound(store: ContactStore, r: Round) returns (out: Outcome)
    requires store.Valid()
    modifies store, store.people
    ensures store.Valid()
    ensures store.Contents() == After(old(store.Contents()), r)
    ensures out == match Dispatch(r.answer)
      case Run(Add) => AddDone(|old(store.Contents())| < MAX_PEOPLE)
      case Run(Delete) => DeleteDone(DeleteOf(old(store.Contents()), r.name, r.choice))
      case Run(Search) => SearchDone(SearchOf(old(store.Contents()), r.name))
      case Run(List) => ListDone(ListOf(old(store.Contents())))
      case Run(Exit) => Exited(Serialize(old(store.Contents())))
      case other => Ignored(other)
  {
    var step := Dispatch(r.answer);
    match step
    case Run(Add) =>
      var added := store.Add(r.person);
      out := AddDone(added);
    case Run(Delete) =>
      var d := store.Delete(r.name, r.choice);
      out := DeleteDone(d);
    case Run(Search) =>
      var found := store.Search(r.name);
      out := SearchDone(found);
    case Run(List) =>
      var listed := store.List();
      out := ListDone(listed);
    case Run(Exit) =>
      var text := store.Save();
      out := Exited(text);
    case _ =>
      out := Ignored(step);
  }
}
