/**
 * What the handlers of main.go promise, proved about the functions of
 * UserTable: where a new id comes from, which row an id-keyed handler
 * touches, what stays put, when a handler fails, and which handlers keep the
 * ids of the table increasing.
 */
module UserTableFacts {
  import opened Wrappers
  import opened UserTable

  // ----- The seed table -----

  /** The table starts as the two seed rows, ids 1 and 2 in that order. */
  lemma SeedIsOrdered()
    ensures |Seed| == 2 && Seed[0].id == 1 && Seed[1].id == 2
    ensures IdsIncreasing(Seed)
  {
  }

  /** Increasing ids are unique ids. */
  lemma IncreasingIdsAreUnique(s: seq<User>)
    requires IdsIncreasing(s)
    ensures IdsUnique(s)
  {
  }

  // ----- Decoding a body over a row -----

  /** Decoding overwrites exactly the fields the body carries. */
  lemma ApplyOverwritesPresentFields(u: User, p: Patch)
    ensures p.id == Some(Apply(u, p).id) || (p.id == None && Apply(u, p).id == u.id)
    ensures p.name == Some(Apply(u, p).name) || (p.name == None && Apply(u, p).name == u.name)
    ensures p.email == Some(Apply(u, p).email) || (p.email == None && Apply(u, p).email == u.email)
    ensures Apply(u, Patch(None, None, None)) == u
    ensures Apply(Apply(u, p), p) == Apply(u, p)
  {
  }

  // ----- getUser -----

  /**
   * Get answers Ok exactly when some row has the id, and then with the first
   * such row; otherwise NotFound.
   */
  lemma GetFindsFirstMatch(s: seq<User>, id: int)
    ensures Get(s, id).Ok? <==> HasId(s, id)
    ensures Get(s, id).NotFound? <==> !HasId(s, id)
    ensures Get(s, id).Ok? || Get(s, id).NotFound?
    ensures forall k :: 0 <= k < |s| && s[k].id == id && (forall j :: 0 <= j < k ==> s[j].id != id) ==>
      Get(s, id) == Ok(s[k])
  {
  }

  /** Any position that matches and has no match before it is what FindFirst returns. */
  lemma FirstMatchIsUnique(s: seq<User>, id: int, k: nat)
    requires k < |s| && s[k].id == id
    requires forall j :: 0 <= j < k ==> s[j].id != id
    ensures FindFirst(s, id) == Some(k)
  {
  }

  // ----- createUser -----

  /**
   * On a non-empty table a decoded body yields a row with the last id plus
   * one and the body's name and email (empty when omitted), appended after
   * every existing row, which stay as they were.
   */
  lemma CreateAppendsNextId(s: seq<User>, p: Patch)
    requires |s| > 0
    ensures Create(s, Decoded(p)).response.Created?
    ensures var st := Create(s, Decoded(p));
      && st.response.user.id == s[|s| - 1].id + 1
      && st.response.user.name == p.name.GetOr("")
      && st.response.user.email == p.email.GetOr("")
      && |st.users| == |s| + 1
      && st.users[..|s|] == s
      && st.users[|s|] == st.response.user
  {
  }

  /** The id the body carries has no effect on create. */
  lemma CreateIgnoresBodyId(s: seq<User>, p: Patch, other: Option<int>)
    ensures Create(s, Decoded(p)) == Create(s, Decoded(p.(id := other)))
  {
  }

  /**
   * Create fails without touching the table when the body does not decode
   * (checked first) or when the table is empty (no last row to take an id from).
   */
  lemma CreateFailures(s: seq<User>, body: Body)
    ensures body.Malformed? ==> Create(s, body) == Step(BadRequest(body.message), s)
    ensures body.Decoded? && s == [] ==> Create(s, body) == Step(Fault, [])
    ensures Create(s, body).response.Created? <==> body.Decoded? && s != []
  {
  }

  /**
   * Round trip: when no row already holds the last id plus one (true of every
   * table with increasing ids, by CreateKeepsIdsIncreasing), looking up the
   * id create assigned gives back the new row, and that row is the body
   * decoded over a blank row except for its id.
   */
  lemma CreateThenGet(s: seq<User>, p: Patch)
    requires |s| > 0 && !HasId(s, s[|s| - 1].id + 1)
    ensures var st := Create(s, Decoded(p));
      && Get(st.users, st.response.user.id) == Ok(st.response.user)
      && st.response.user == Apply(Blank, p).(id := st.response.user.id)
  {
    var st := Create(s, Decoded(p));
    FirstMatchIsUnique(st.users, st.response.user.id, |s|);
  }

  /** Create keeps ids increasing, so the id it assigns is one no row has. */
  lemma CreateKeepsIdsIncreasing(s: seq<User>, body: Body)
    requires IdsIncreasing(s)
    ensures IdsIncreasing(Create(s, body).users)
    ensures Create(s, body).response.Created? ==> !HasId(s, Create(s, body).response.user.id)
  {
  }

  // ----- updateUser -----

  /**
   * With a decoded body, update rewrites the first matching row with the
   * fields the body carries (the id among them) and answers with the new row;
   * every other row and the order stay as they were.
   */
  lemma UpdateRewritesFirstMatch(s: seq<User>, id: int, p: Patch, i: nat)
    requires i < |s| && s[i].id == id
    requires forall j :: 0 <= j < i ==> s[j].id != id
    ensures var st := Update(s, id, Decoded(p));
      && st.response == Ok(Apply(s[i], p))
      && |st.users| == |s|
      && st.users[i] == Apply(s[i], p)
      && (forall j :: 0 <= j < |s| && j != i ==> st.users[j] == s[j])
  {
  }

  /** With no row under the id, update answers NotFound whatever the body. */
  lemma UpdateMissingIsNotFound(s: seq<User>, id: int, body: Body)
    requires !HasId(s, id)
    ensures Update(s, id, body) == Step(NotFound, s)
  {
  }

  /** A body that does not decode is reported only once a row matches. */
  lemma UpdateMalformedIsBadRequest(s: seq<User>, id: int, msg: string)
    ensures HasId(s, id) ==> Update(s, id, Malformed(msg)) == Step(BadRequest(msg), s)
    ensures !HasId(s, id) ==> Update(s, id, Malformed(msg)) == Step(NotFound, s)
  {
  }

  /**
   * On a table with unique ids, an update that leaves the row with an id no
   * other row has (its old id when the body carries none) makes the row
   * reachable under that id and, when the id changed, unreachable under the
   * old one.
   */
  lemma UpdateThenGet(s: seq<User>, id: int, p: Patch, i: nat)
    requires IdsUnique(s)
    requires i < |s| && s[i].id == id
    requires forall j :: 0 <= j < |s| && j != i ==> s[j].id != Apply(s[i], p).id
    ensures var st := Update(s, id, Decoded(p));
      && Get(st.users, Apply(s[i], p).id) == Ok(Apply(s[i], p))
      && (Apply(s[i], p).id != id ==> Get(st.users, id) == NotFound)
  {
    var newId := Apply(s[i], p).id;
    assert forall j :: 0 <= j < i ==> s[j].id != id;
    UpdateRewritesFirstMatch(s, id, p, i);
    var st := Update(s, id, Decoded(p));
    FirstMatchIsUnique(st.users, newId, i);
    if newId != id {
      assert !HasId(st.users, id) by {
        forall k | 0 <= k < |st.users| ensures st.users[k].id != id {
          if k != i {
            assert s[k].id != s[i].id;
          }
        }
      }
    }
  }

  /**
   * A body without an id keeps the row's id, and get under it finds the
   * rewritten row, whether or not other rows share the id.
   */
  lemma UpdateWithoutIdThenGet(s: seq<User>, id: int, p: Patch, i: nat)
    requires i < |s| && s[i].id == id
    requires forall j :: 0 <= j < i ==> s[j].id != id
    requires p.id.None?
    ensures Get(Update(s, id, Decoded(p)).users, id) == Ok(Apply(s[i], p))
    ensures Apply(s[i], p).id == id
  {
    UpdateRewritesFirstMatch(s, id, p, i);
    FirstMatchIsUnique(Update(s, id, Decoded(p)).users, id, i);
  }

  /** Update does not keep ids unique: rewriting row 2's id to 1 duplicates it. */
  lemma UpdateCanDuplicateIds()
    ensures var st := Update(Seed, 2, Decoded(Patch(Some(1), None, None)));
      && st.response == Ok(User(1, "Jane Doe", "jane@example.com"))
      && st.users == [User(1, "John Doe", "john@example.com"), User(1, "Jane Doe", "jane@example.com")]
      && !IdsUnique(st.users)
  {
    FirstMatchIsUnique(Seed, 2, 1);
    var st := Update(Seed, 2, Decoded(Patch(Some(1), None, None)));
    assert st.users[0].id == st.users[1].id;
  }

  /**
   * Once an update breaks the order, last-id-plus-one can collide: moving
   * row 1 of the seed to id 3 and then creating gives id 3 to two rows, and
   * get(3) answers with the older one rather than the new row.
   */
  lemma UpdateThenCreateDuplicates()
    ensures var up := Update(Seed, 1, Decoded(Patch(Some(3), None, None)));
      var c := Create(up.users, Decoded(Patch(None, Some("Bob"), None)));
      && up.users == [User(3, "John Doe", "john@example.com"), Seed[1]]
      && c.response == Created(User(3, "Bob", ""))
      && c.users == [User(3, "John Doe", "john@example.com"), Seed[1], User(3, "Bob", "")]
      && !IdsUnique(c.users)
      && Get(c.users, 3) == Ok(User(3, "John Doe", "john@example.com"))
  {
    FirstMatchIsUnique(Seed, 1, 0);
    var up := Update(Seed, 1, Decoded(Patch(Some(3), None, None)));
    var c := Create(up.users, Decoded(Patch(None, Some("Bob"), None)));
    FirstMatchIsUnique(c.users, 3, 0);
    assert c.users[0].id == c.users[2].id;
  }

  // ----- deleteUser -----

  /**
   * Delete removes exactly the first matching row: one row fewer, the rows
   * before it and after it in their old order, the same rows as before less
   * that one.
   */
  lemma DeleteRemovesFirstMatch(s: seq<User>, id: int, i: nat)
    requires i < |s| && s[i].id == id
    requires forall j :: 0 <= j < i ==> s[j].id != id
    ensures var st := Delete(s, id);
      && st.response == NoContent
      && |st.users| == |s| - 1
      && (forall j :: 0 <= j < i ==> st.users[j] == s[j])
      && (forall j :: i <= j < |st.users| ==> st.users[j] == s[j + 1])
      && multiset(st.users) + multiset{s[i]} == multiset(s)
  {
    FirstMatchIsUnique(s, id, i);
    assert s == s[..i] + [s[i]] + s[i + 1..];
  }

  /** With no row under the id, delete answers NotFound and changes nothing. */
  lemma DeleteMissingIsNotFound(s: seq<User>, id: int)
    requires !HasId(s, id)
    ensures Delete(s, id) == Step(NotFound, s)
  {
  }

  /** On a table with unique ids, the deleted id is gone afterwards. */
  lemma DeleteThenGet(s: seq<User>, id: int)
    requires IdsUnique(s)
    ensures Get(Delete(s, id).users, id) == NotFound
  {
    match FindFirst(s, id)
    case None =>
    case Some(i) =>
      var t := Delete(s, id).users;
      forall k | 0 <= k < |t| ensures t[k].id != id {
        if k < i {
          assert t[k] == s[k];
        } else {
          assert t[k] == s[k + 1];
        }
      }
  }

  /** Delete keeps ids increasing. */
  lemma DeleteKeepsIdsIncreasing(s: seq<User>, id: int)
    requires IdsIncreasing(s)
    ensures IdsIncreasing(Delete(s, id).users)
  {
  }

  // ----- Whole sessions -----

  /**
   * From the seed: create Bob gets id 3; deleting id 1 leaves [2, 3]; create
   * Cara gets 3 + 1 = 4, the last row's id plus one rather than a counter.
   */
  lemma SessionAssignsFromLastRow()
    ensures var c1 := Create(Seed, Decoded(Patch(None, Some("Bob"), Some("b@x"))));
      var d := Delete(c1.users, 1);
      var c2 := Create(d.users, Decoded(Patch(Some(9), Some("Cara"), None)));
      && c1.response == Created(User(3, "Bob", "b@x"))
      && d.response == NoContent
      && d.users == [Seed[1], User(3, "Bob", "b@x")]
      && c2.response == Created(User(4, "Cara", ""))
      && c2.users == [Seed[1], User(3, "Bob", "b@x"), User(4, "Cara", "")]
  {
  }

  /**
   * Deleting the last row frees its id for the next create, and deleting
   * every row makes the next create fault.
   */
  lemma SessionReusesIdAndEmpties()
    ensures var c1 := Create(Seed, Decoded(Patch(None, None, None)));
      var d := Delete(c1.users, 3);
      var c2 := Create(d.users, Decoded(Patch(None, None, None)));
      && c1.response == Created(User(3, "", ""))
      && d.users == Seed
      && c2.response == Created(User(3, "", ""))
    ensures var e := Delete(Delete(Seed, 1).users, 2);
      && e.response == NoContent
      && e.users == []
      && Create(e.users, Decoded(Patch(None, Some("X"), None))).response == Fault
  {
    var c1 := Create(Seed, Decoded(Patch(None, None, None)));
    FirstMatchIsUnique(c1.users, 3, 2);
    FirstMatchIsUnique(Seed, 1, 0);
    FirstMatchIsUnique(Delete(Seed, 1).users, 2, 0);
  }
}
