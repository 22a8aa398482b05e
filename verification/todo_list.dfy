/** The three transitions the page applies to its list state once the server
    has confirmed a request: toggle-by-id (a `map`), delete-by-id (a `filter`)
    and append (a spread into a new array). Each is a pure function of the
    previous list.
 */
module TodoList {
  import opened Todos

  /** Toggle-by-id: every record whose identifier is `id` has its `done` flag
      negated; every other record is kept as it is, in place. */
  function Toggle(s: seq<Todo>, id: Id): (r: seq<Todo>)
    ensures |r| == |s|
    ensures forall i :: 0 <= i < |s| ==> r[i].id == s[i].id && r[i].task == s[i].task
    ensures forall i :: 0 <= i < |s| && s[i].id == id ==> r[i].done == !s[i].done
    ensures forall i :: 0 <= i < |s| && s[i].id != id ==> r[i] == s[i]
    decreases |s|
  {
    if s == [] then []
    else [if s[0].id == id then Flip(s[0]) else s[0]] + Toggle(s[1..], id)
  }

  /** Delete-by-id: the records whose identifier is not `id`, in their
      original order. */
  function Delete(s: seq<Todo>, id: Id): (r: seq<Todo>)
    ensures forall t :: t in r <==> t in s && t.id != id
    ensures |r| == |s| - Count(s, id)
    decreases |s|
  {
    if s == [] then []
    else if s[0].id != id then [s[0]] + Delete(s[1..], id)
    else Delete(s[1..], id)
  }

  /** Append: the record returned by the server goes after all the others. */
  function Append(s: seq<Todo>, t: Todo): (r: seq<Todo>)
    ensures |r| == |s| + 1
    ensures r[..|s|] == s && r[|s|] == t
  {
    s + [t]
  }

  // ---------------------------------------------------------------------
  // Toggle

  /** Toggling the same identifier twice gives back exactly the original list. */
  lemma {:induction false} ToggleInvolution(s: seq<Todo>, id: Id)
    ensures Toggle(Toggle(s, id), id) == s
  {
    var r := Toggle(Toggle(s, id), id);
    assert |r| == |s|;
    forall i | 0 <= i < |s|
      ensures r[i] == s[i]
    {
      var m := Toggle(s, id);
      if s[i].id == id {
        assert m[i].id == id;
        assert r[i].done == s[i].done;
      }
    }
  }

  /** Toggling an identifier that no record carries leaves the list as it is. */
  lemma {:induction false} ToggleAbsent(s: seq<Todo>, id: Id)
    requires !HasId(s, id)
    ensures Toggle(s, id) == s
  {
    var r := Toggle(s, id);
    forall i | 0 <= i < |s|
      ensures r[i] == s[i]
    {
      assert s[i].id != id;
    }
  }

  /** Toggling changes the list exactly when some record carries the identifier. */
  lemma ToggleChangesIffPresent(s: seq<Todo>, id: Id)
    ensures Toggle(s, id) != s <==> HasId(s, id)
  {
    if HasId(s, id) {
      var i :| 0 <= i < |s| && s[i].id == id;
      assert Toggle(s, id)[i].done != s[i].done;
    } else {
      ToggleAbsent(s, id);
    }
  }

  /** Toggles of two identifiers may be applied in either order. */
  lemma {:induction false} ToggleCommutes(s: seq<Todo>, a: Id, b: Id)
    ensures Toggle(Toggle(s, a), b) == Toggle(Toggle(s, b), a)
  {
    var x := Toggle(Toggle(s, a), b);
    var y := Toggle(Toggle(s, b), a);
    forall i | 0 <= i < |s|
      ensures x[i] == y[i]
    {
      var sa, sb := Toggle(s, a), Toggle(s, b);
      assert sa[i].id == s[i].id && sb[i].id == s[i].id;
      if s[i].id == a && s[i].id == b {
        assert x[i].done == s[i].done == y[i].done;
      }
    }
  }

  /** Toggle keeps the identifiers unique. */
  lemma ToggleKeepsUniqueIds(s: seq<Todo>, id: Id)
    requires UniqueIds(s)
    ensures UniqueIds(Toggle(s, id))
  {
  }

  // ---------------------------------------------------------------------
  // Delete

  /** Indices of `s` that `f` picks out, strictly increasing, such that
      `r` is read off `s` along them: `r` is `s` with some records removed
      and the rest in their original relative order. */
  ghost predicate Embedding(r: seq<Todo>, s: seq<Todo>, f: seq<nat>)
  {
    && |f| == |r|
    && (forall k :: 0 <= k < |f| ==> f[k] < |s| && r[k] == s[f[k]])
    && (forall k, l :: 0 <= k < l < |f| ==> f[k] < f[l])
  }

  /** The indices `f` each moved one place to the right. */
  function Shift(f: seq<nat>): (g: seq<nat>)
    ensures |g| == |f|
    ensures forall k :: 0 <= k < |f| ==> g[k] == f[k] + 1
  {
    seq(|f|, k requires 0 <= k < |f| => f[k] + 1)
  }

  /** An embedding of `r` into the tail of `s` is also one into `s`, shifted. */
  lemma EmbeddingSkip(r: seq<Todo>, s: seq<Todo>, f: seq<nat>)
    requires s != [] && Embedding(r, s[1..], f)
    ensures Embedding(r, s, Shift(f))
  {
    var g := Shift(f);
    forall k | 0 <= k < |g|
      ensures g[k] < |s| && r[k] == s[g[k]]
    {
      assert s[1..][f[k]] == s[f[k] + 1];
    }
  }

  /** Keeping the head of `s` extends an embedding of `r` into its tail. */
  lemma EmbeddingKeep(r: seq<Todo>, s: seq<Todo>, f: seq<nat>)
    requires s != [] && Embedding(r, s[1..], f)
    ensures Embedding([s[0]] + r, s, [0] + Shift(f))
  {
    EmbeddingSkip(r, s, f);
    var g := [0] + Shift(f);
    var r' := [s[0]] + r;
    forall k | 1 <= k < |g|
      ensures g[k] == Shift(f)[k - 1] && r'[k] == r[k - 1]
    {
    }
  }

  /** The survivors of a delete keep their original relative order. */
  lemma {:induction false} DeleteKeepsOrder(s: seq<Todo>, id: Id)
    ensures exists f :: Embedding(Delete(s, id), s, f)
    decreases |s|
  {
    if s == [] {
      assert Delete(s, id) == [];
      assert Embedding([], s, []);
    } else {
      DeleteKeepsOrder(s[1..], id);
      var rest := Delete(s[1..], id);
      var f :| Embedding(rest, s[1..], f);
      if s[0].id != id {
        EmbeddingKeep(rest, s, f);
        assert Delete(s, id) == [s[0]] + rest;
      } else {
        EmbeddingSkip(rest, s, f);
        assert Delete(s, id) == rest;
      }
    }
  }

  /** Deleting an identifier that no record carries leaves the list as it is. */
  lemma {:induction false} DeleteAbsent(s: seq<Todo>, id: Id)
    requires !HasId(s, id)
    ensures Delete(s, id) == s
    decreases |s|
  {
    if s != [] {
      assert s[0].id != id;
      assert !HasId(s[1..], id) by {
        forall i | 0 <= i < |s[1..]|
          ensures s[1..][i].id != id
        {
          assert s[1..][i] == s[i + 1];
        }
      }
      DeleteAbsent(s[1..], id);
      assert s == [s[0]] + s[1..];
    }
  }

  /** After a delete no record carries the identifier. */
  lemma DeleteRemovesAll(s: seq<Todo>, id: Id)
    ensures !HasId(Delete(s, id), id)
  {
    var r := Delete(s, id);
    forall i | 0 <= i < |r|
      ensures r[i].id != id
    {
      assert r[i] in r;
    }
  }

  /** A second delete of the same identifier changes nothing. */
  lemma DeleteIdempotent(s: seq<Todo>, id: Id)
    ensures Delete(Delete(s, id), id) == Delete(s, id)
  {
    DeleteRemovesAll(s, id);
    DeleteAbsent(Delete(s, id), id);
  }

  /** With unique identifiers, deleting a present record shortens the list by one. */
  lemma DeleteUniqueLength(s: seq<Todo>, id: Id)
    requires UniqueIds(s) && HasId(s, id)
    ensures |Delete(s, id)| == |s| - 1
  {
    CountUnique(s, id);
  }

  /** Deleting an identifier after toggling it is the same as deleting it:
      the flipped records are exactly the removed ones. */
  lemma {:induction false} DeleteAfterToggle(s: seq<Todo>, id: Id)
    ensures Delete(Toggle(s, id), id) == Delete(s, id)
    decreases |s|
  {
    if s != [] {
      var t := Toggle(s, id);
      assert t[1..] == Toggle(s[1..], id);
      DeleteAfterToggle(s[1..], id);
    }
  }

  /** A toggle and a delete may be applied in either order, for any two
      identifiers, equal ones included: a toggled record that the delete
      removes leaves no trace either way. */
  lemma {:induction false} DeleteToggleCommute(s: seq<Todo>, a: Id, b: Id)
    ensures Delete(Toggle(s, a), b) == Toggle(Delete(s, b), a)
    decreases |s|
  {
    if s != [] {
      var t := Toggle(s, a);
      assert t[1..] == Toggle(s[1..], a);
      DeleteToggleCommute(s[1..], a, b);
      if s[0].id != b {
        var d := Delete(s, b);
        assert d == [s[0]] + Delete(s[1..], b);
        assert d[1..] == Delete(s[1..], b);
      }
    }
  }

  /** Deletes of two identifiers may be applied in either order. */
  lemma {:induction false} DeleteCommutes(s: seq<Todo>, a: Id, b: Id)
    ensures Delete(Delete(s, a), b) == Delete(Delete(s, b), a)
    decreases |s|
  {
    if s != [] {
      DeleteCommutes(s[1..], a, b);
      if s[0].id != a {
        var d := Delete(s, a);
        assert d == [s[0]] + Delete(s[1..], a);
        assert d[0] == s[0] && d[1..] == Delete(s[1..], a);
      }
      if s[0].id != b {
        var d := Delete(s, b);
        assert d == [s[0]] + Delete(s[1..], b);
        assert d[0] == s[0] && d[1..] == Delete(s[1..], b);
      }
    }
  }

  // ---------------------------------------------------------------------
  // Append

  /** Deleting the identifier of a freshly appended record undoes the append. */
  lemma DeleteUndoesAppend(s: seq<Todo>, t: Todo)
    requires !HasId(s, t.id)
    ensures Delete(Append(s, t), t.id) == s
  {
    DeleteSplit(s, [t], t.id);
    DeleteAbsent(s, t.id);
    assert Delete([t], t.id) == [];
  }

  /** Delete distributes over concatenation. */
  lemma {:induction false} DeleteSplit(a: seq<Todo>, b: seq<Todo>, id: Id)
    ensures Delete(a + b, id) == Delete(a, id) + Delete(b, id)
    decreases |a|
  {
    if a == [] {
      assert a + b == b;
    } else {
      var ab := a + b;
      assert ab[0] == a[0] && ab[1..] == a[1..] + b;
      DeleteSplit(a[1..], b, id);
      if a[0].id != id {
        calc {
          Delete(ab, id);
          [a[0]] + Delete(a[1..] + b, id);
          [a[0]] + (Delete(a[1..], id) + Delete(b, id));
          ([a[0]] + Delete(a[1..], id)) + Delete(b, id);
        }
      }
    }
  }

  /** Appending a record with a fresh identifier keeps the identifiers unique. */
  lemma AppendFreshKeepsUniqueIds(s: seq<Todo>, t: Todo)
    requires UniqueIds(s) && !HasId(s, t.id)
    ensures UniqueIds(Append(s, t))
  {
    var r := Append(s, t);
    forall i, j | 0 <= i < j < |r|
      ensures r[i].id != r[j].id
    {
      if j == |s| {
        assert r[i] == s[i];
      } else {
        assert r[i] == s[i] && r[j] == s[j];
      }
    }
  }
}
