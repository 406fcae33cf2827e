/** Short client sessions on a fresh database, proved from the method
    contracts of the store alone. Each session is cut into steps: a step
    states in its `requires` the tables it starts from. */
module Sessions {
  import opened Records
  import opened Tables
  import opened Queries
  import opened PicnicStore

  /** On a fresh database the first picnic and the first user both get id 1. */
  method SessionFreshIds() {
    var s := new Store();
    var ok, err := s.CreatePicnic(Picnic(0, "Summer Bash", "Park", "2024-07-01"));
    assert s.picnics == [Picnic(1, "Summer Bash", "Park", "2024-07-01")];
    ok, err := s.CreateUser(User(5, "Ann"));
    assert ok && s.users == [User(1, "Ann")];
  }

  /** A second user with a taken name is refused without touching the table. */
  method SessionDuplicateName() {
    var s := new Store();
    var ok, err := s.CreateUser(User(0, "Ann"));
    assert s.users == [User(1, "Ann")];
    RefuseSecondAnn(s);
  }

  method RefuseSecondAnn(s: Store)
    requires s.Valid() && s.users == [User(1, "Ann")]
    modifies s
  {
    assert NameTaken(s.users, "Ann");
    var ok, err := s.CreateUser(User(7, "Ann"));
    assert !ok && err == Some(UniqueConstraintFailed("users.name"));
    assert s.users == [User(1, "Ann")];
  }

  /** With picnic 1 and user Ann stored, linking them as (1, 1) makes Ann
      the picnic's user list and the picnic Ann's picnic list. */
  method SessionLinkBothSides() {
    var s := new Store();
    var ok, err := s.CreatePicnic(Picnic(0, "Summer Bash", "Park", "2024-07-01"));
    assert s.picnics == [Picnic(1, "Summer Bash", "Park", "2024-07-01")];
    AddAnn(s);
    LinkAndListBoth(s);
  }

  method AddAnn(s: Store)
    requires s.Valid() && s.picnics == [Picnic(1, "Summer Bash", "Park", "2024-07-01")]
    requires s.users == [] && s.lastUserId == 0 && s.usersPicnics == [] && s.lastUserPicnicId == 0
    modifies s
    ensures s.Valid() && s.picnics == [Picnic(1, "Summer Bash", "Park", "2024-07-01")]
    ensures s.users == [User(1, "Ann")] && s.usersPicnics == [] && s.lastUserPicnicId == 0
  {
    var ok, err := s.CreateUser(User(0, "Ann"));
  }

  method LinkAndListBoth(s: Store)
    requires s.Valid() && s.picnics == [Picnic(1, "Summer Bash", "Park", "2024-07-01")]
    requires s.users == [User(1, "Ann")] && s.usersPicnics == [] && s.lastUserPicnicId == 0
    modifies s
  {
    var ok, err := s.AddUserToPicnic(1, 1);
    assert s.usersPicnics == [UserPicnic(1, 1, 1)];
    UsersOfOneLink();
    PicnicsOfOneLink();
    var users, e1 := s.GetUsersByPicnic(1);
    assert users == [User(1, "Ann")];
    var picnics, e2 := s.GetPicnicsByUser(1);
    assert picnics == [Picnic(1, "Summer Bash", "Park", "2024-07-01")];
  }

  lemma UsersOfOneLink()
    ensures UsersOfPicnic([UserPicnic(1, 1, 1)], [User(1, "Ann")], 1) == [User(1, "Ann")]
  {
    UsersOfPicnicAddLink([], [User(1, "Ann")], UserPicnic(1, 1, 1), 1);
    assert [] + [UserPicnic(1, 1, 1)] == [UserPicnic(1, 1, 1)];
    WithKeyOfRow([User(1, "Ann")], UserId, User(1, "Ann"));
  }

  /** After linking user 1 to picnic 1, the user's picnic list is that picnic;
      once the picnic is deleted, the dangling link is dropped from the list,
      though the link row itself stays. */
  method SessionPicnicsOfUser() {
    var s := new Store();
    var ok, err := s.CreatePicnic(Picnic(0, "Summer Bash", "Park", "2024-07-01"));
    assert s.picnics == [Picnic(1, "Summer Bash", "Park", "2024-07-01")];
    LinkAndListPicnics(s);
    DeleteAndListPicnics(s);
  }

  method LinkAndListPicnics(s: Store)
    requires s.Valid() && s.picnics == [Picnic(1, "Summer Bash", "Park", "2024-07-01")]
    requires s.usersPicnics == [] && s.lastUserPicnicId == 0
    modifies s
    ensures s.Valid() && s.picnics == [Picnic(1, "Summer Bash", "Park", "2024-07-01")]
    ensures s.usersPicnics == [UserPicnic(1, 1, 1)]
  {
    var ok, err := s.AddUserToPicnic(1, 1);
    assert s.usersPicnics == [UserPicnic(1, 1, 1)];
    PicnicsOfOneLink();
    var picnics, e := s.GetPicnicsByUser(1);
    assert picnics == [Picnic(1, "Summer Bash", "Park", "2024-07-01")];
  }

  lemma PicnicsOfOneLink()
    ensures PicnicsOfUser([UserPicnic(1, 1, 1)], [Picnic(1, "Summer Bash", "Park", "2024-07-01")], 1)
         == [Picnic(1, "Summer Bash", "Park", "2024-07-01")]
  {
    var p := Picnic(1, "Summer Bash", "Park", "2024-07-01");
    PicnicsOfUserAddLink([], [p], UserPicnic(1, 1, 1), 1);
    assert [] + [UserPicnic(1, 1, 1)] == [UserPicnic(1, 1, 1)];
    WithKeyOfRow([p], PicnicId, p);
  }

  method DeleteAndListPicnics(s: Store)
    requires s.Valid() && s.picnics == [Picnic(1, "Summer Bash", "Park", "2024-07-01")]
    requires s.usersPicnics == [UserPicnic(1, 1, 1)]
    modifies s
  {
    var ok, err := s.DeletePicnic(1);
    assert s.picnics == [] && s.usersPicnics == [UserPicnic(1, 1, 1)];
    DanglingLinkDropped([], [], UserPicnic(1, 1, 1), 1);
    assert [] + [UserPicnic(1, 1, 1)] == [UserPicnic(1, 1, 1)];
    var picnics, e := s.GetPicnicsByUser(1);
    assert picnics == [];
  }

  /** A contribution of 3 units is found again by its (user, picnic) pair;
      a pair with no contribution reads as the zero Contribution. */
  method SessionContribution() {
    var s := new Store();
    var ok, err := s.CreateContribution(Contribution(0, 1, 1, 1, 3));
    assert s.contributions == [Contribution(1, 1, 1, 1, 3)];
    FindContribution(s);
  }

  method FindContribution(s: Store)
    requires s.Valid() && s.contributions == [Contribution(1, 1, 1, 1, 3)]
  {
    var c, e := s.GetContributionsOfUserToPicnic(1, 1);
    assert c == Contribution(1, 1, 1, 1, 3);
    c, e := s.GetContributionsOfUserToPicnic(2, 1);
    assert c == ZeroContribution && e == None;
  }
}
