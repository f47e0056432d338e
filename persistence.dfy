/**
 * `load_people` and `save_people`: the two functions that move records between
 * the store's array and the people file. The file itself is its text: an
 * `Option<string>` to read from (None when fopen fails) and a string written.
 */
module Persistence {
  import opened Wrappers
  import opened People
  import opened Format

  /**
   * One `fscanf(file, "%s %s %s %d", ...) == 4` test of load_people's loop, on
   * the unread text `rest`, with `left` slots still free: whether a complete
   * group was converted, the record it fills in and the text after it. A
   * failed test ends the reading; a converted group is the next record read.
   */
  method ReadGroup(rest: string, ghost left: int) returns (converted: bool, p: Person, next: string)
    requires left > 0
    ensures !converted ==> ReadPeople(rest, left) == []
    ensures converted ==> ReadPeople(rest, left) == [p] + ReadPeople(next, left - 1)
  {
    var group := Fscanf(rest, RecordFormat);
    if !Complete(group.item) {
      return false, Person("", "", "", 0), rest;
    }
    p := ToPerson(group.item);
    return true, p, group.rest;
  }

  /**
   * load_people: fill `people` from the file, one fscanf group per slot, while
   * fewer than `max` slots are filled and the last group converted all four
   * fields. Returns the number of records read; a file that cannot be opened
   * gives 0.
   */
  method LoadPeople(file: Option<string>, people: array<Person>, max: int) returns (count: int)
    requires max <= people.Length
    modifies people
    ensures 0 <= count <= people.Length
    ensures file.None? ==> count == 0
    ensures file.Some? ==> people[..count] == ReadPeople(file.value, max)
  {
    count := 0;
    if file.None? {
      return;
    }
    var rest := file.value;
    ghost var done: seq<Person> := [];
    while count < max
      invariant 0 <= count <= people.Length
      invariant |done| == count
      invariant forall k :: 0 <= k < count ==> people[k] == done[k]
      invariant done + ReadPeople(rest, max - count) == ReadPeople(file.value, max)
      decreases max - count
    {
      var converted, p, next := ReadGroup(rest, max - count);
      if !converted {
        RightUnit(done);
        break;
      }
      Assoc(done, [p], ReadPeople(next, max - count - 1));
      people[count] := p;
      done := done + [p];
      rest := next;
      count := count + 1;
    }
    if count >= max {
      ReadPeopleExhausted(rest, max - count);
      RightUnit(done);
    }
    assert people[..count] == done;
  }

  /**
   * save_people: the text written to the file, one "%s %s %s %d\n" line per
   * record of people[0..count), in array order.
   */
  method SavePeople(people: array<Person>, count: int) returns (text: string)
    requires count <= people.Length
    ensures count <= 0 ==> text == []
    ensures count >= 0 ==> text == Serialize(people[..count])
  {
    text := [];
    var i := 0;
    while i < count
      invariant 0 <= i <= if count < 0 then 0 else count
      invariant text == Serialize(people[..i])
    {
      assert text + Line(people[i]) == Serialize(people[..i + 1]) by {
        assert people[..i + 1] == people[..i] + [people[i]];
        SerializeSnoc(people[..i], people[i]);
      }
      text := text + Line(people[i]);
      i := i + 1;
    }
  }
}
