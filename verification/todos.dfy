/** The task record held in the page's list state, and a few observations
    about a list of such records that the transitions are specified with.
 */
module Todos {

  /** The store-generated identifier of a record (the `_id` field). */
  type Id = string

  /** One record of the list: `{_id, task, done}`. */
  datatype Todo = Todo(id: Id, task: string, done: bool)

  /** The record with its completion flag negated and everything else kept
      (the object spread `{ ...todo, done: !todo.done }`). */
  function Flip(t: Todo): (r: Todo)
    ensures r.id == t.id && r.task == t.task
    ensures r.done != t.done
  {
    t.(done := !t.done)
  }

  /** Some record of `s` carries the identifier `id`. */
  predicate HasId(s: seq<Todo>, id: Id)
  {
    exists i :: 0 <= i < |s| && s[i].id == id
  }

  /** How many records of `s` carry the identifier `id`. */
  function Count(s: seq<Todo>, id: Id): (n: nat)
    ensures n <= |s|
    ensures n == 0 <==> !HasId(s, id)
    decreases |s|
  {
    if s == [] then 0
    else (if s[0].id == id then 1 else 0) + Count(s[1..], id)
  }

  /** No two records of `s` share an identifier, as the store guarantees for
      the records it hands out. */
  predicate UniqueIds(s: seq<Todo>)
  {
    forall i, j :: 0 <= i < j < |s| ==> s[i].id != s[j].id
  }

  /** In a list with unique identifiers, a present identifier occurs once. */
  lemma {:induction false} CountUnique(s: seq<Todo>, id: Id)
    requires UniqueIds(s)
    ensures HasId(s, id) ==> Count(s, id) == 1
    decreases |s|
  {
    if s != [] {
      assert UniqueIds(s[1..]) by {
        forall i, j | 0 <= i < j < |s[1..]|
          ensures s[1..][i].id != s[1..][j].id
        {
          assert s[1..][i] == s[i + 1] && s[1..][j] == s[j + 1];
        }
      }
      CountUnique(s[1..], id);
      if s[0].id == id {
        assert !HasId(s[1..], id) by {
          forall i | 0 <= i < |s[1..]|
            ensures s[1..][i].id != id
          {
            assert s[1..][i] == s[i + 1];
          }
        }
      } else if HasId(s, id) {
        var i :| 0 <= i < |s| && s[i].id == id;
        assert s[1..][i - 1] == s[i];
      }
    }
  }
}
