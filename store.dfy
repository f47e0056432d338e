/**
 * The in-memory list of contacts: main's `Person people[MAX_PEOPLE]` with its
 * `int count`, and the four operations of the menu on it: add_person,
 * search_person, list_people and delete_person. What each operation reports
 * (the lines it prints) is a datatype; the text read with scanf is a parameter.
 */
module Store {
  import opened Wrappers
  import opened People
  import opened Format
  import opened Persistence

  // ---------------------------------------------------------------------------
  // Pure specification
  // ---------------------------------------------------------------------------

  /**
   * The positions of the records whose first name equals `name` (strcmp == 0),
   * in array order: the `indexes` delete_person collects.
   */
  function Matches(s: seq<Person>, name: string): (r: seq<nat>)
    ensures forall j :: 0 <= j < |r| ==> r[j] < |s| && s[r[j]].firstName == name
    ensures forall j, k :: 0 <= j < k < |r| ==> r[j] < r[k]
    ensures forall i :: 0 <= i < |s| && s[i].firstName == name ==> i in r
    ensures |r| <= |s|
    decreases |s|
  {
    if s == [] then []
    else
      var m := Matches(s[..|s| - 1], name);
      if s[|s| - 1].firstName == name then m + [|s| - 1] else m
  }

  /** The number of records whose first name is `name`. */
  function Named(s: seq<Person>, name: string): nat {
    if s == [] then 0 else (if s[0].firstName == name then 1 else 0) + Named(s[1..], name)
  }

  /** One printed line of a result list: its number and the record shown. */
  datatype Row = Row(number: int, person: Person)

  /** The lines search_person prints: each match numbered by its position in the list (i + 1). */
  function PositionRows(s: seq<Person>, m: seq<nat>): seq<Row>
    requires forall j :: 0 <= j < |m| ==> m[j] < |s|
  {
    seq(|m|, j requires 0 <= j < |m| => Row(m[j] + 1, s[m[j]]))
  }

  /** The lines delete_person prints: each match numbered by its rank among the matches (foundCount). */
  function ChoiceRows(s: seq<Person>, m: seq<nat>): seq<Row>
    requires forall j :: 0 <= j < |m| ==> m[j] < |s|
  {
    seq(|m|, j requires 0 <= j < |m| => Row(j + 1, s[m[j]]))
  }

  /** What search_person reports. */
  datatype SearchReport =
    | NothingToSearch          // "No people to search"
    | NotFound                 // "No person found with that name"
    | Found(rows: seq<Row>)    // one line per match

  /**
   * What search_person reports: "No people to search" exactly for an empty
   * list; otherwise the records with that first name, at least one of them.
   */
  function SearchOf(s: seq<Person>, name: string): (r: SearchReport)
    ensures r.NothingToSearch? <==> s == []
    ensures r.Found? ==> |r.rows| > 0 && forall j :: 0 <= j < |r.rows| ==> r.rows[j].person.firstName == name
  {
    if |s| == 0 then NothingToSearch
    else
      var m := Matches(s, name);
      if m == [] then NotFound else Found(PositionRows(s, m))
  }

  /** What list_people reports. */
  datatype ListReport =
    | NoPeopleFound            // "No people found"
    | Listed(rows: seq<Person>)

  /** What list_people reports: "No people found" exactly for an empty list, else every record in order. */
  function ListOf(s: seq<Person>): (r: ListReport)
    ensures r.NoPeopleFound? <==> s == []
    ensures r.Listed? ==> r.rows == s
  {
    if |s| == 0 then NoPeopleFound else Listed(s)
  }

  /** What delete_person reports. */
  datatype DeleteReport =
    | NothingToDelete                                // "No people to delete"
    | NoMatch                                        // "No person found with that name"
    | InvalidChoice(candidates: seq<Row>)            // the matches, then "Invalid choice"
    | Deleted(candidates: seq<Row>, index: nat)      // the matches, then "Person deleted successfully"

  /** delete_person on the records `s`, for the name and the choice typed in. */
  function DeleteOf(s: seq<Person>, name: string, choice: int): (r: DeleteReport)
    ensures r.Deleted? <==> 1 <= choice <= |Matches(s, name)|
    ensures r.Deleted? ==> r.index < |s| && s[r.index].firstName == name
    ensures (r.Deleted? || r.InvalidChoice?) ==> |r.candidates| == |Matches(s, name)|
    ensures r.Deleted? ==> r.candidates[choice - 1] == Row(choice, s[r.index])
    ensures r.NothingToDelete? <==> s == []
    ensures r.NoMatch? <==> s != [] && Matches(s, name) == []
    ensures (r.Deleted? || r.InvalidChoice?) ==>
      forall j :: 0 <= j < |r.candidates| ==> r.candidates[j] == Row(j + 1, s[Matches(s, name)[j]])
  {
    if |s| == 0 then NothingToDelete
    else
      var m := Matches(s, name);
      if m == [] then NoMatch
      else if choice < 1 || choice > |m| then InvalidChoice(ChoiceRows(s, m))
      else Deleted(ChoiceRows(s, m), m[choice - 1])
  }

  /** The records after the one at `i` is removed by shifting the later ones left. */
  function RemoveAt(s: seq<Person>, i: nat): (r: seq<Person>)
    requires i < |s|
    ensures |r| == |s| - 1
    ensures forall k :: 0 <= k < i ==> r[k] == s[k]
    ensures forall k :: i <= k < |r| ==> r[k] == s[k + 1]
  {
    s[..i] + s[i + 1..]
  }

  // ---------------------------------------------------------------------------
  // The store
  // ---------------------------------------------------------------------------

  /** main's `people` array and `count`: the records are people[0..count). */
  class ContactStore {
    const people: array<Person>
    var count: int

    ghost predicate Valid()
      reads this
    {
      people.Length == MAX_PEOPLE && 0 <= count <= MAX_PEOPLE
    }

    /** The records in the store, in array order. */
    function Contents(): seq<Person>
      reads this, people
      requires Valid()
    {
      people[..count]
    }

    /** main's start: `count = load_people("people.txt", people, MAX_PEOPLE)`. */
    constructor Load(file: Option<string>)
      ensures Valid() && fresh(people)
      ensures Contents() == LoadFile(file, MAX_PEOPLE)
    {
      var a := new Person[MAX_PEOPLE](_ => Person("", "", "", 0));
      var n := LoadPeople(file, a, MAX_PEOPLE);
      people := a;
      count := n;
    }

    /** main's EXIT: `save_people("people.txt", people, count)`; the text written. */
    method Save() returns (text: string)
      requires Valid()
      ensures text == Serialize(Contents())
    {
      text := SavePeople(people, count);
    }

    /**
     * add_person with the record the four scanf calls read: refused when the
     * store is full, otherwise stored in slot `count`, which then grows by one.
     */
    method Add(p: Person) returns (added: bool)
      requires Valid()
      modifies this, people
      ensures Valid()
      ensures added <==> old(count) < MAX_PEOPLE
      ensures Contents() == if added then old(Contents()) + [p] else old(Contents())
      ensures forall k :: 0 <= k < people.Length && k != old(count) ==> people[k] == old(people[k])
    {
      if count >= MAX_PEOPLE {
        return false;
      }
      people[count] := p;
      count := count + 1;
      return true;
    }

    /** list_people: every record in array order, or "No people found". */
    method List() returns (r: ListReport)
      requires Valid()
      ensures r == ListOf(Contents())
    {
      if count == 0 {
        return NoPeopleFound;
      }
      var rows: seq<Person> := [];
      for i := 0 to count
        invariant rows == people[..i]
      {
        rows := rows + [people[i]];
      }
      return Listed(rows);
    }

    /** search_person for the name typed in. */
    method Search(name: string) returns (r: SearchReport)
      requires Valid()
      ensures r == SearchOf(Contents(), name)
    {
      if count == 0 {
        return NothingToSearch;
      }
      var rows: seq<Row> := [];
      var found := false;
      for i := 0 to count
        invariant rows == PositionRows(people[..i], Matches(people[..i], name))
        invariant found <==> rows != []
      {
        MatchesSnoc(people[..i + 1], name);
        assert people[..i + 1][..i] == people[..i];
        if people[i].firstName == name {
          rows := rows + [Row(i + 1, people[i])];
          found := true;
        }
        PositionRowsSnoc(people[..i + 1], name);
      }
      assert people[..count] == Contents();
      if !found {
        return NotFound;
      }
      return Found(rows);
    }

    /**
     * The first phase of delete_person: the positions of the matches in
     * `indexes[0..foundCount)`, and the numbered lines printed for them.
     */
    method CollectMatches(name: string) returns (indexes: array<nat>, foundCount: nat, candidates: seq<Row>)
      requires Valid()
      ensures fresh(indexes) && indexes.Length == MAX_PEOPLE
      ensures foundCount <= count
      ensures indexes[..foundCount] == Matches(Contents(), name)
      ensures candidates == ChoiceRows(Contents(), Matches(Contents(), name))
    {
      indexes := new nat[MAX_PEOPLE];
      foundCount := 0;
      candidates := [];
      for i := 0 to count
        invariant foundCount <= i
        invariant indexes[..foundCount] == Matches(people[..i], name)
        invariant candidates == ChoiceRows(people[..i], Matches(people[..i], name))
      {
        ghost var seen := people[..i + 1];
        assert seen[..|seen| - 1] == people[..i];
        MatchesSnoc(seen, name);
        ChoiceRowsSnoc(seen, name);
        if people[i].firstName == name {
          ghost var found := indexes[..foundCount];
          indexes[foundCount] := i;
          assert indexes[..foundCount + 1] == found + [i];
          foundCount := foundCount + 1;
          candidates := candidates + [Row(foundCount, people[i])];
        }
      }
      assert people[..count] == Contents();
    }

    /** The second phase of delete_person: shift people[d+1..count) one slot left and shrink count. */
    method RemoveSlot(d: nat)
      requires Valid() && d < count
      modifies this, people
      ensures Valid()
      ensures count == old(count) - 1
      ensures Contents() == RemoveAt(old(Contents()), d)
      ensures forall k :: old(count) - 1 <= k < people.Length ==> people[k] == old(people[k])
    {
      for i := d to count - 1
        invariant count == old(count)
        invariant forall k :: 0 <= k < d ==> people[k] == old(people[k])
        invariant forall k :: d <= k < i ==> people[k] == old(people[k + 1])
        invariant forall k :: i <= k < people.Length ==> people[k] == old(people[k])
      {
        people[i] := people[i + 1];
      }
      count := count - 1;
    }

    /** delete_person for the name and the choice typed in. */
    method Delete(name: string, choice: int) returns (r: DeleteReport)
      requires Valid()
      modifies this, people
      ensures Valid()
      ensures r == DeleteOf(old(Contents()), name, choice)
      ensures Contents() == if r.Deleted? then RemoveAt(old(Contents()), r.index) else old(Contents())
      ensures !r.Deleted? ==> unchanged(people)
    {
      if count == 0 {
        return NothingToDelete;
      }
      var indexes, foundCount, candidates := CollectMatches(name);
      if foundCount == 0 {
        return NoMatch;
      }
      if choice < 1 || choice > foundCount {
        return InvalidChoice(candidates);
      }
      var deleteIndex := indexes[choice - 1];
      assert deleteIndex == Matches(Contents(), name)[choice - 1];
      RemoveSlot(deleteIndex);
      return Deleted(candidates, deleteIndex);
    }
  }

  // ---------------------------------------------------------------------------
  // Lemmas
  // ---------------------------------------------------------------------------

  /** Matching one more record appends its position when its name matches. */
  lemma {:induction false} MatchesSnoc(s: seq<Person>, name: string)
    requires s != []
    ensures Matches(s, name)
         == Matches(s[..|s| - 1], name) + (if s[|s| - 1].firstName == name then [|s| - 1] else [])
  {
  }

  /** The rows of a listing depend only on the records the positions point at. */
  lemma {:induction false} PositionRowsPrefix(s: seq<Person>, t: seq<Person>, m: seq<nat>)
    requires |t| <= |s| && t == s[..|t|]
    requires forall j :: 0 <= j < |m| ==> m[j] < |t|
    ensures PositionRows(s, m) == PositionRows(t, m)
  {
    assert forall j :: 0 <= j < |m| ==> s[m[j]] == t[m[j]];
  }

  lemma {:induction false} PositionRowsAppend(s: seq<Person>, m: seq<nat>, x: nat)
    requires forall j :: 0 <= j < |m| ==> m[j] < |s|
    requires x < |s|
    ensures PositionRows(s, m + [x]) == PositionRows(s, m) + [Row(x + 1, s[x])]
  {
  }

  lemma {:induction false} ChoiceRowsPrefix(s: seq<Person>, t: seq<Person>, m: seq<nat>)
    requires |t| <= |s| && t == s[..|t|]
    requires forall j :: 0 <= j < |m| ==> m[j] < |t|
    ensures ChoiceRows(s, m) == ChoiceRows(t, m)
  {
    assert forall j :: 0 <= j < |m| ==> s[m[j]] == t[m[j]];
  }

  lemma {:induction false} ChoiceRowsAppend(s: seq<Person>, m: seq<nat>, x: nat)
    requires forall j :: 0 <= j < |m| ==> m[j] < |s|
    requires x < |s|
    ensures ChoiceRows(s, m + [x]) == ChoiceRows(s, m) + [Row(|m| + 1, s[x])]
  {
  }

  lemma {:induction false} PositionRowsSnoc(s: seq<Person>, name: string)
    requires s != []
    ensures PositionRows(s, Matches(s, name))
         == PositionRows(s[..|s| - 1], Matches(s[..|s| - 1], name))
            + (if s[|s| - 1].firstName == name then [Row(|s|, s[|s| - 1])] else [])
  {
    var t := s[..|s| - 1];
    var m := Matches(t, name);
    PositionRowsPrefix(s, t, m);
    if s[|s| - 1].firstName == name {
      PositionRowsAppend(s, m, |s| - 1);
    }
  }

  lemma {:induction false} ChoiceRowsSnoc(s: seq<Person>, name: string)
    requires s != []
    ensures ChoiceRows(s, Matches(s, name))
         == ChoiceRows(s[..|s| - 1], Matches(s[..|s| - 1], name))
            + (if s[|s| - 1].firstName == name then [Row(|Matches(s, name)|, s[|s| - 1])] else [])
  {
    var t := s[..|s| - 1];
    var m := Matches(t, name);
    MatchesSnoc(s, name);
    ChoiceRowsPrefix(s, t, m);
    if s[|s| - 1].firstName == name {
      assert Matches(s, name) == m + [|s| - 1];
      ChoiceRowsAppend(s, m, |s| - 1);
    } else {
      assert Matches(s, name) == m;
    }
  }

  /** The matches among the first `k` records are the matches of the whole list that lie before `k`. */
  lemma {:induction false} MatchesPrefix(s: seq<Person>, name: string, k: nat)
    requires k <= |s|
    ensures |Matches(s[..k], name)| <= |Matches(s, name)|
    ensures Matches(s, name)[..|Matches(s[..k], name)|] == Matches(s[..k], name)
    ensures forall j :: |Matches(s[..k], name)| <= j < |Matches(s, name)| ==> Matches(s, name)[j] >= k
    decreases |s| - k
  {
    if k == |s| {
      assert s[..k] == s;
    } else {
      var t := s[..|s| - 1];
      assert t[..k] == s[..k];
      MatchesPrefix(t, name, k);
      MatchesSnoc(s, name);
    }
  }

  /** search_person finds something exactly when some record has that first name. */
  lemma {:induction false} SearchFoundIff(s: seq<Person>, name: string)
    ensures SearchOf(s, name).Found? <==> exists i :: 0 <= i < |s| && s[i].firstName == name
    ensures SearchOf(s, name) == NotFound <==> |s| > 0 && forall i :: 0 <= i < |s| ==> s[i].firstName != name
  {
    if exists i :: 0 <= i < |s| && s[i].firstName == name {
      var i :| 0 <= i < |s| && s[i].firstName == name;
      assert i in Matches(s, name);
    }
    if Matches(s, name) != [] {
      assert s[Matches(s, name)[0]].firstName == name;
    }
  }

  /**
   * Every line search_person prints shows a record with that first name,
   * numbered by its 1-based position; the lines are in list order, and every
   * such record is printed.
   */
  lemma {:induction false} SearchRows(s: seq<Person>, name: string)
    requires SearchOf(s, name).Found?
    ensures var rows := SearchOf(s, name).rows;
      && (forall j :: 0 <= j < |rows| ==>
            1 <= rows[j].number <= |s| && rows[j].person == s[rows[j].number - 1] && rows[j].person.firstName == name)
      && (forall j, k :: 0 <= j < k < |rows| ==> rows[j].number < rows[k].number)
      && (forall i :: 0 <= i < |s| && s[i].firstName == name ==> Row(i + 1, s[i]) in rows)
  {
    var m := Matches(s, name);
    assert SearchOf(s, name).rows == PositionRows(s, m);
    PositionRowsShow(s, m, name, SearchOf(s, name).rows);
    PositionRowsCover(s, m, name, SearchOf(s, name).rows);
  }

  /** Rows numbered by ascending positions of records bearing `name` show those records, in ascending order. */
  lemma {:induction false} PositionRowsShow(s: seq<Person>, m: seq<nat>, name: string, rows: seq<Row>)
    requires forall j :: 0 <= j < |m| ==> m[j] < |s| && s[m[j]].firstName == name
    requires forall j, k :: 0 <= j < k < |m| ==> m[j] < m[k]
    requires rows == PositionRows(s, m)
    ensures && (forall j :: 0 <= j < |rows| ==>
            1 <= rows[j].number <= |s| && rows[j].person == s[rows[j].number - 1] && rows[j].person.firstName == name)
      && (forall j, k :: 0 <= j < k < |rows| ==> rows[j].number < rows[k].number)
  {
    forall j | 0 <= j < |rows|
      ensures 1 <= rows[j].number <= |s| && rows[j].person == s[rows[j].number - 1] && rows[j].person.firstName == name
    {
      assert rows[j] == Row(m[j] + 1, s[m[j]]);
    }
    forall j, k | 0 <= j < k < |rows|
      ensures rows[j].number < rows[k].number
    {
      assert rows[j].number == m[j] + 1 && rows[k].number == m[k] + 1;
    }
  }

  /** When every position of a record bearing `name` is in `m`, each such record has a row. */
  lemma {:induction false} PositionRowsCover(s: seq<Person>, m: seq<nat>, name: string, rows: seq<Row>)
    requires forall j :: 0 <= j < |m| ==> m[j] < |s|
    requires forall i :: 0 <= i < |s| && s[i].firstName == name ==> i in m
    requires rows == PositionRows(s, m)
    ensures forall i :: 0 <= i < |s| && s[i].firstName == name ==> Row(i + 1, s[i]) in rows
  {
    forall i | 0 <= i < |s| && s[i].firstName == name
      ensures Row(i + 1, s[i]) in rows
    {
      assert i in m;
      var j :| 0 <= j < |m| && m[j] == i;
      assert rows[j] == Row(i + 1, s[i]);
    }
  }

  /** The record delete_person removes is the `choice`-th record with that first name. */
  lemma {:induction false} DeleteChoosesRank(s: seq<Person>, name: string, choice: int)
    requires DeleteOf(s, name, choice).Deleted?
    ensures var i := DeleteOf(s, name, choice).index;
      s[i].firstName == name && |Matches(s[..i], name)| == choice - 1
  {
    var m := Matches(s, name);
    var i := DeleteOf(s, name, choice).index;
    assert i == m[choice - 1];
    MatchesPrefix(s, name, i);
    var p := Matches(s[..i], name);
    assert |s[..i]| == i;
    RankOfBound(m, p, choice - 1, i);
  }

  /**
   * In a strictly ascending list whose elements below `x` form the prefix `p`,
   * the position of `x` is |p|.
   */
  lemma {:induction false} RankOfBound(m: seq<nat>, p: seq<nat>, c: nat, x: nat)
    requires forall j, k :: 0 <= j < k < |m| ==> m[j] < m[k]
    requires |p| <= |m| && m[..|p|] == p
    requires forall j :: 0 <= j < |p| ==> p[j] < x
    requires forall j :: |p| <= j < |m| ==> m[j] >= x
    requires c < |m| && m[c] == x
    ensures |p| == c
  {
    assert forall j :: 0 <= j < |p| ==> m[j] < x;
    assert forall j :: 0 <= j < c ==> m[j] < m[c];
    var first := if |p| < |m| then m[|p|] else x;
    assert first >= x;
  }

  /** Counting from the back or from the front gives the same number of matches. */
  lemma {:induction false} NamedConcat(a: seq<Person>, b: seq<Person>, name: string)
    ensures Named(a + b, name) == Named(a, name) + Named(b, name)
  {
    if a == [] {
      assert a + b == b;
    } else {
      assert (a + b)[1..] == a[1..] + b;
      NamedConcat(a[1..], b, name);
    }
  }

  lemma {:induction false} MatchesCount(s: seq<Person>, name: string)
    ensures |Matches(s, name)| == Named(s, name)
    decreases |s|
  {
    if s != [] {
      var t := s[..|s| - 1];
      MatchesCount(t, name);
      NamedConcat(t, [s[|s| - 1]], name);
      assert t + [s[|s| - 1]] == s;
    }
  }

  /**
   * A deletion removes one record with the name searched for and no record
   * with any other first name; the other records are all kept.
   */
  lemma {:induction false} DeleteCounts(s: seq<Person>, name: string, choice: int, other: string)
    requires DeleteOf(s, name, choice).Deleted?
    ensures var after := RemoveAt(s, DeleteOf(s, name, choice).index);
      && |Matches(after, name)| == |Matches(s, name)| - 1
      && (other != name ==> |Matches(after, other)| == |Matches(s, other)|)
      && multiset(after) + multiset{s[DeleteOf(s, name, choice).index]} == multiset(s)
  {
    var i := DeleteOf(s, name, choice).index;
    var after := RemoveAt(s, i);
    var before, x, later := s[..i], s[i], s[i + 1..];
    assert s == (before + [x]) + later;
    assert after == before + later;
    NamedRemoved(before, x, later, name);
    NamedRemoved(before, x, later, other);
    MatchesCount(s, name);
    MatchesCount(s, other);
    MatchesCount(after, name);
    MatchesCount(after, other);
  }

  /** Taking `x` out from between `before` and `later` lowers the count of its first name by one only. */
  lemma {:induction false} NamedRemoved(before: seq<Person>, x: Person, later: seq<Person>, name: string)
    ensures Named((before + [x]) + later, name) == Named(before + later, name) + (if x.firstName == name then 1 else 0)
  {
    NamedConcat(before + [x], later, name);
    NamedConcat(before, [x], name);
    NamedConcat(before, later, name);
    assert [x][1..] == [];
  }

  /** After add_person, searching for the new first name shows the new record last, numbered count + 1. */
  lemma {:induction false} AddThenSearch(s: seq<Person>, p: Person)
    ensures SearchOf(s + [p], p.firstName).Found?
    ensures var rows := SearchOf(s + [p], p.firstName).rows;
      rows != [] && rows[|rows| - 1] == Row(|s| + 1, p)
  {
    var t := s + [p];
    assert t[..|t| - 1] == s;
    MatchesSnoc(t, p.firstName);
  }

  /**
   * delete_person undoes add_person: choosing the last match for the added
   * first name removes the added record and gives back the list before it.
   */
  lemma {:induction false} AddThenDelete(s: seq<Person>, p: Person)
    ensures var n := |Matches(s + [p], p.firstName)|;
      && DeleteOf(s + [p], p.firstName, n).Deleted?
      && DeleteOf(s + [p], p.firstName, n).index == |s|
      && RemoveAt(s + [p], |s|) == s
  {
    var t := s + [p];
    assert t[..|t| - 1] == s;
    MatchesSnoc(t, p.firstName);
  }
}
