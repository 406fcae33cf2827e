/** The queries that involve more than a primary key: the two inner joins
    through the link table `users_picnics`, the lookup of a contribution by
    its (user, picnic) pair, and the UNIQUE constraint on `users.name`. */
module Queries {
  import opened Records
  import opened Tables

  // ---------------------------------------------------------------------------
  // users INNER JOIN users_picnics ON users.id = users_picnics.user_id
  //   WHERE users_picnics.picnic_id = ?

  /** The users one link row contributes to the join for `picnicId`. */
  function LinkedUsers(link: UserPicnic, users: seq<User>, picnicId: int): seq<User> {
    if link.picnicId == picnicId then WithKey(users, UserId, link.userId) else []
  }

  /** The join result, link row by link row in storage order. A user appears
      exactly when some link row pairs it with the picnic; a link whose user
      does not exist contributes nothing. */
  function UsersOfPicnic(links: seq<UserPicnic>, users: seq<User>, picnicId: int): (r: seq<User>)
    ensures forall u :: u in r ==>
      u in users && exists l :: l in links && l.picnicId == picnicId && l.userId == u.id
    ensures forall l, u :: l in links && u in users && l.picnicId == picnicId && l.userId == u.id ==> u in r
  {
    if links == [] then []
    else LinkedUsers(links[0], users, picnicId) + UsersOfPicnic(links[1..], users, picnicId)
  }

  // ---------------------------------------------------------------------------
  // picnics INNER JOIN users_picnics ON picnics.id = picnic_id WHERE user_id = ?

  /** The picnics one link row contributes to the join for `userId`. */
  function LinkedPicnics(link: UserPicnic, picnics: seq<Picnic>, userId: int): seq<Picnic> {
    if link.userId == userId then WithKey(picnics, PicnicId, link.picnicId) else []
  }

  /** The join result, link row by link row in storage order. A picnic appears
      exactly when some link row pairs it with the user; a link whose picnic
      does not exist (for instance, was deleted) contributes nothing. */
  function PicnicsOfUser(links: seq<UserPicnic>, picnics: seq<Picnic>, userId: int): (r: seq<Picnic>)
    ensures forall p :: p in r ==>
      p in picnics && exists l :: l in links && l.userId == userId && l.picnicId == p.id
    ensures forall l, p :: l in links && p in picnics && l.userId == userId && l.picnicId == p.id ==> p in r
  {
    if links == [] then []
    else LinkedPicnics(links[0], picnics, userId) + PicnicsOfUser(links[1..], picnics, userId)
  }

  /** The number of link rows pairing `userId` with `picnicId`. */
  function LinkCount(links: seq<UserPicnic>, userId: int, picnicId: int): nat {
    if links == [] then 0
    else (if links[0].userId == userId && links[0].picnicId == picnicId then 1 else 0)
         + LinkCount(links[1..], userId, picnicId)
  }

  // ---------------------------------------------------------------------------
  // SELECT … FROM contributions WHERE user_id = ? AND picnic_id = ?  (QueryRow)

  /** The row `QueryRow` scans: the first contribution of `userId` to
      `picnicId` in storage order, or the zero Contribution when there is none. */
  function FirstContribution(rows: seq<Contribution>, userId: int, picnicId: int): (r: Contribution)
    ensures (exists c :: c in rows && c.userId == userId && c.picnicId == picnicId) ==>
      r in rows && r.userId == userId && r.picnicId == picnicId
    ensures !(exists c :: c in rows && c.userId == userId && c.picnicId == picnicId) ==>
      r == ZeroContribution
  {
    if rows == [] then ZeroContribution
    else if rows[0].userId == userId && rows[0].picnicId == picnicId then rows[0]
    else FirstContribution(rows[1..], userId, picnicId)
  }

  // ---------------------------------------------------------------------------
  // users.name UNIQUE

  /** No two users share a name. */
  predicate NamesUnique(users: seq<User>) {
    forall i, j :: 0 <= i < j < |users| ==> users[i].name != users[j].name
  }

  /** Some user has this name: an INSERT of it violates UNIQUE. */
  predicate NameTaken(users: seq<User>, name: string): (b: bool)
    ensures b <==> exists i :: 0 <= i < |users| && users[i].name == name
  {
    exists u :: u in users && u.name == name
  }

  /** A user other than row `id` holds this name. Renaming row `id` to the
      name violates UNIQUE exactly when this holds and row `id` exists; when
      no row has that id the UPDATE matches nothing and cannot violate it. */
  predicate NameHeldByOther(users: seq<User>, name: string, id: int): (b: bool)
    ensures b ==> NameTaken(users, name)
    ensures NameTaken(users, name) && !HasKey(users, UserId, id) ==> b
  {
    exists u :: u in users && u.name == name && u.id != id
  }

  // ---------------------------------------------------------------------------
  // Lemmas

  /** Appending link rows appends their contribution to the join. */
  lemma {:induction false} UsersOfPicnicAppend(a: seq<UserPicnic>, b: seq<UserPicnic>, users: seq<User>, picnicId: int)
    ensures UsersOfPicnic(a + b, users, picnicId) == UsersOfPicnic(a, users, picnicId) + UsersOfPicnic(b, users, picnicId)
  {
    if a == [] {
      assert a + b == b;
    } else {
      assert (a + b)[1..] == a[1..] + b;
      UsersOfPicnicAppend(a[1..], b, users, picnicId);
    }
  }

  /** Appending link rows appends their contribution to the join. */
  lemma {:induction false} PicnicsOfUserAppend(a: seq<UserPicnic>, b: seq<UserPicnic>, picnics: seq<Picnic>, userId: int)
    ensures PicnicsOfUser(a + b, picnics, userId) == PicnicsOfUser(a, picnics, userId) + PicnicsOfUser(b, picnics, userId)
  {
    if a == [] {
      assert a + b == b;
    } else {
      assert (a + b)[1..] == a[1..] + b;
      PicnicsOfUserAppend(a[1..], b, picnics, userId);
    }
  }

  /** One more link row (u, p): `UsersOfPicnic(p)` gains exactly the users with
      id u (one if u exists, none otherwise), every other picnic's list stays. */
  lemma UsersOfPicnicAddLink(links: seq<UserPicnic>, users: seq<User>, link: UserPicnic, picnicId: int)
    ensures UsersOfPicnic(links + [link], users, picnicId)
         == UsersOfPicnic(links, users, picnicId)
            + (if link.picnicId == picnicId then WithKey(users, UserId, link.userId) else [])
  {
    UsersOfPicnicAppend(links, [link], users, picnicId);
    assert [link][1..] == [];
  }

  /** One more link row (u, p): `PicnicsOfUser(u)` gains exactly the picnics
      with id p (one if p exists, none otherwise), every other user's list stays. */
  lemma PicnicsOfUserAddLink(links: seq<UserPicnic>, picnics: seq<Picnic>, link: UserPicnic, userId: int)
    ensures PicnicsOfUser(links + [link], picnics, userId)
         == PicnicsOfUser(links, picnics, userId)
            + (if link.userId == userId then WithKey(picnics, PicnicId, link.picnicId) else [])
  {
    PicnicsOfUserAppend(links, [link], picnics, userId);
    assert [link][1..] == [];
  }

  /** No duplicate check: linking an existing user to a picnic twice makes the
      join list that user twice more. */
  lemma DuplicateLinkListedTwice(links: seq<UserPicnic>, users: seq<User>, u: User, picnicId: int, id1: int, id2: int)
    requires Ascending(users, UserId) && u in users
    ensures UsersOfPicnic(links + [UserPicnic(id1, u.id, picnicId)] + [UserPicnic(id2, u.id, picnicId)], users, picnicId)
         == UsersOfPicnic(links, users, picnicId) + [u, u]
  {
    WithKeyOfRow(users, UserId, u);
    UsersOfPicnicAddLink(links, users, UserPicnic(id1, u.id, picnicId), picnicId);
    UsersOfPicnicAddLink(links + [UserPicnic(id1, u.id, picnicId)], users, UserPicnic(id2, u.id, picnicId), picnicId);
  }

  /** With unique user ids, an existing user appears in `UsersOfPicnic(p)` once
      per link row pairing it with p. */
  lemma {:induction false} UsersOfPicnicMultiplicity(links: seq<UserPicnic>, users: seq<User>, u: User, picnicId: int)
    requires Ascending(users, UserId) && u in users
    ensures multiset(UsersOfPicnic(links, users, picnicId))[u] == LinkCount(links, u.id, picnicId)
  {
    if links != [] {
      UsersOfPicnicMultiplicity(links[1..], users, u, picnicId);
      var l := links[0];
      if l.picnicId == picnicId && l.userId == u.id {
        WithKeyOfRow(users, UserId, u);
      } else if l.picnicId == picnicId {
        assert u !in WithKey(users, UserId, l.userId);
      }
    }
  }

  /** With unique picnic ids, an existing picnic appears in `PicnicsOfUser(u)`
      once per link row pairing u with it. */
  lemma {:induction false} PicnicsOfUserMultiplicity(links: seq<UserPicnic>, picnics: seq<Picnic>, p: Picnic, userId: int)
    requires Ascending(picnics, PicnicId) && p in picnics
    ensures multiset(PicnicsOfUser(links, picnics, userId))[p] == LinkCount(links, userId, p.id)
  {
    if links != [] {
      PicnicsOfUserMultiplicity(links[1..], picnics, p, userId);
      var l := links[0];
      if l.userId == userId && l.picnicId == p.id {
        WithKeyOfRow(picnics, PicnicId, p);
      } else if l.userId == userId {
        assert p !in WithKey(picnics, PicnicId, l.picnicId);
      }
    }
  }

  /** A link row whose picnic does not exist is dropped from the join. */
  lemma DanglingLinkDropped(links: seq<UserPicnic>, picnics: seq<Picnic>, link: UserPicnic, userId: int)
    requires !HasKey(picnics, PicnicId, link.picnicId)
    ensures PicnicsOfUser(links + [link], picnics, userId) == PicnicsOfUser(links, picnics, userId)
  {
    PicnicsOfUserAddLink(links, picnics, link, userId);
    NoKeyNoRows(picnics, PicnicId, link.picnicId);
  }

  /** Deleting picnic `id` (without touching the link table) removes exactly
      that picnic from every user's join result. */
  lemma {:induction false} PicnicsOfUserAfterDelete(links: seq<UserPicnic>, picnics: seq<Picnic>, userId: int, id: int)
    ensures PicnicsOfUser(links, WithoutKey(picnics, PicnicId, id), userId)
         == WithoutKey(PicnicsOfUser(links, picnics, userId), PicnicId, id)
  {
    if links != [] {
      var l := links[0];
      var rest := PicnicsOfUser(links[1..], picnics, userId);
      PicnicsOfUserAfterDelete(links[1..], picnics, userId, id);
      WithoutKeyAppend(LinkedPicnics(l, picnics, userId), rest, PicnicId, id);
      if l.userId == userId {
        WithKeyWithoutKey(picnics, PicnicId, id, l.picnicId);
      }
    }
  }

  /** Inserting a name nobody holds keeps names unique. */
  lemma AppendKeepsNamesUnique(users: seq<User>, u: User)
    requires NamesUnique(users) && !NameTaken(users, u.name)
    ensures NamesUnique(users + [u])
  {
  }

  /** Renaming row `id` without a UNIQUE violation keeps names unique. */
  lemma RenameKeepsNamesUnique(users: seq<User>, id: int, row: User)
    requires Ascending(users, UserId) && NamesUnique(users) && row.id == id
    requires !(HasKey(users, UserId, id) && NameHeldByOther(users, row.name, id))
    ensures NamesUnique(Overwrite(users, UserId, id, row))
  {
  }
}
