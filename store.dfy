/** The database behind the shared `DB` handle: the five tables of the schema
    and, per table, the largest id AUTOINCREMENT has issued (SQLite keeps it
    in `sqlite_sequence`). Each method is one repository function and runs
    the one statement that function runs. */
module PicnicStore {
  import opened Records
  import opened Tables
  import opened Queries

  class Store {
    var picnics: seq<Picnic>
    var users: seq<User>
    var usersPicnics: seq<UserPicnic>
    var foodItems: seq<FoodItem>
    var contributions: seq<Contribution>

    /** The largest id ever issued for each table. */
    var lastPicnicId: nat
    var lastUserId: nat
    var lastUserPicnicId: nat
    var lastFoodItemId: nat
    var lastContributionId: nat

    /** Every id ever issued for each table, deleted rows included. */
    ghost var issuedPicnicIds: set<int>
    ghost var issuedUserIds: set<int>
    ghost var issuedUserPicnicIds: set<int>
    ghost var issuedFoodItemIds: set<int>
    ghost var issuedContributionIds: set<int>

    /** No id issued so far exceeds the table's counter. */
    static predicate IssuedUpTo(issued: set<int>, last: int) {
      forall x :: x in issued ==> 1 <= x <= last
    }

    /** Issuing the next id keeps every issued id within the new counter. */
    static lemma IssueNext(issued: set<int>, last: nat)
      requires IssuedUpTo(issued, last)
      ensures IssuedUpTo(issued + {last + 1}, last + 1)
    {
    }

    /** The store invariant: AUTOINCREMENT keeps every table keyed by its
        counter, and the UNIQUE index keeps user names distinct. */
    ghost predicate Valid()
      reads this
    {
      Keyed(picnics, PicnicId, lastPicnicId) && IssuedUpTo(issuedPicnicIds, lastPicnicId) &&
      Keyed(users, UserId, lastUserId) && IssuedUpTo(issuedUserIds, lastUserId) && NamesUnique(users) &&
      Keyed(usersPicnics, UserPicnicId, lastUserPicnicId) && IssuedUpTo(issuedUserPicnicIds, lastUserPicnicId) &&
      Keyed(foodItems, FoodItemId, lastFoodItemId) && IssuedUpTo(issuedFoodItemIds, lastFoodItemId) &&
      Keyed(contributions, ContributionId, lastContributionId) && IssuedUpTo(issuedContributionIds, lastContributionId)
    }

    /** What the invariant guarantees the next statement: a name identifies
        at most one user, and the id AUTOINCREMENT issues next is held by no
        row of its table. */
    lemma ValidFacts()
      requires Valid()
      ensures forall u, v :: u in users && v in users && u.name == v.name ==> u == v
      ensures !HasKey(picnics, PicnicId, lastPicnicId + 1) && !HasKey(users, UserId, lastUserId + 1)
      ensures !HasKey(usersPicnics, UserPicnicId, lastUserPicnicId + 1)
      ensures !HasKey(foodItems, FoodItemId, lastFoodItemId + 1)
      ensures !HasKey(contributions, ContributionId, lastContributionId + 1)
    {
    }

    /** A freshly created database: five empty tables, no id issued yet. */
    constructor ()
      ensures Valid()
      ensures picnics == [] && users == [] && usersPicnics == [] && foodItems == [] && contributions == []
      ensures lastPicnicId == 0 && lastUserId == 0 && lastUserPicnicId == 0
      ensures lastFoodItemId == 0 && lastContributionId == 0
      ensures issuedPicnicIds == {} && issuedUserIds == {} && issuedUserPicnicIds == {}
      ensures issuedFoodItemIds == {} && issuedContributionIds == {}
    {
      picnics, users, usersPicnics, foodItems, contributions := [], [], [], [], [];
      lastPicnicId, lastUserId, lastUserPicnicId, lastFoodItemId, lastContributionId := 0, 0, 0, 0, 0;
      issuedPicnicIds, issuedUserIds, issuedUserPicnicIds := {}, {}, {};
      issuedFoodItemIds, issuedContributionIds := {}, {};
    }

    // -------------------------------------------------------------------------
    // Picnic

    /** INSERT INTO picnics (name, location, date): the caller's id is ignored,
        the row gets the next AUTOINCREMENT id. */
    method CreatePicnic(newPicnic: Picnic) returns (ok: bool, err: Option<DbError>)
      requires Valid()
      modifies this`picnics, this`lastPicnicId, this`issuedPicnicIds
      ensures Valid()
      ensures ok && err == None
      ensures lastPicnicId == old(lastPicnicId) + 1
      ensures forall x :: x in old(issuedPicnicIds) ==> x < lastPicnicId
      ensures issuedPicnicIds == old(issuedPicnicIds) + {lastPicnicId}
      ensures picnics == old(picnics) + [Picnic(lastPicnicId, newPicnic.name, newPicnic.location, newPicnic.date)]
      ensures forall id :: (Lookup(picnics, PicnicId, id, ZeroPicnic)
        == if id == lastPicnicId then Picnic(lastPicnicId, newPicnic.name, newPicnic.location, newPicnic.date)
           else Lookup(old(picnics), PicnicId, id, ZeroPicnic))
    {
      var row := Picnic(lastPicnicId + 1, newPicnic.name, newPicnic.location, newPicnic.date);
      AppendFresh(picnics, PicnicId, lastPicnicId, row);
      IssueNext(issuedPicnicIds, lastPicnicId);
      LookupsAfterAppend(picnics, PicnicId, row, ZeroPicnic);
      picnics := picnics + [row];
      lastPicnicId := lastPicnicId + 1;
      issuedPicnicIds := issuedPicnicIds + {lastPicnicId};
      ok, err := true, None;
    }

    /** SELECT … FROM picnics WHERE id = ?: the stored row, or the zero Picnic
        with no error when none has that id. */
    method GetPicnicById(id: int) returns (picnic: Picnic, err: Option<DbError>)
      requires Valid()
      ensures err == None
      ensures HasKey(picnics, PicnicId, id) ==> picnic in picnics && picnic.id == id
      ensures !HasKey(picnics, PicnicId, id) ==> picnic == ZeroPicnic
      ensures picnic == ZeroPicnic <==> !HasKey(picnics, PicnicId, id)
    {
      picnic := Lookup(picnics, PicnicId, id, ZeroPicnic);
      err := None;
    }

    /** SELECT … FROM picnics: every row, collected row by row. */
    method GetPicnics() returns (result: seq<Picnic>, err: Option<DbError>)
      ensures result == picnics && err == None
    {
      result := [];
      var i := 0;
      while i < |picnics|
        invariant 0 <= i <= |picnics|
        invariant result == picnics[..i]
      {
        result := result + [picnics[i]];
        i := i + 1;
      }
      err := None;
    }

    /** UPDATE picnics SET name, location, date WHERE id = ?: overwrites the
        three columns of the matching row; reports success even when none matches. */
    method UpdatePicnic(updatedPicnic: Picnic, idToUpdate: int) returns (ok: bool, err: Option<DbError>)
      requires Valid()
      modifies this`picnics
      ensures Valid()
      ensures ok && err == None
      ensures picnics == Overwrite(old(picnics), PicnicId, idToUpdate,
                                   Picnic(idToUpdate, updatedPicnic.name, updatedPicnic.location, updatedPicnic.date))
      ensures !HasKey(old(picnics), PicnicId, idToUpdate) ==> picnics == old(picnics)
      ensures forall id :: (Lookup(picnics, PicnicId, id, ZeroPicnic)
        == if id == idToUpdate && HasKey(old(picnics), PicnicId, idToUpdate)
           then Picnic(idToUpdate, updatedPicnic.name, updatedPicnic.location, updatedPicnic.date)
           else Lookup(old(picnics), PicnicId, id, ZeroPicnic))
    {
      var row := Picnic(idToUpdate, updatedPicnic.name, updatedPicnic.location, updatedPicnic.date);
      OverwriteKeyed(picnics, PicnicId, lastPicnicId, idToUpdate, row);
      if !HasKey(picnics, PicnicId, idToUpdate) {
        OverwriteAbsent(picnics, PicnicId, idToUpdate, row);
      }
      forall id ensures Lookup(Overwrite(picnics, PicnicId, idToUpdate, row), PicnicId, id, ZeroPicnic)
        == if id == idToUpdate && HasKey(picnics, PicnicId, idToUpdate) then row
           else Lookup(picnics, PicnicId, id, ZeroPicnic)
      {
        LookupAfterOverwrite(picnics, PicnicId, idToUpdate, row, id, ZeroPicnic);
      }
      picnics := Overwrite(picnics, PicnicId, idToUpdate, row);
      ok, err := true, None;
    }

    /** DELETE from picnics WHERE id = ?: removes the matching row; reports
        success even when none matches; links and contributions are kept. */
    method DeletePicnic(picnicId: int) returns (ok: bool, err: Option<DbError>)
      requires Valid()
      modifies this`picnics
      ensures Valid()
      ensures ok && err == None
      ensures picnics == WithoutKey(old(picnics), PicnicId, picnicId)
      ensures !HasKey(old(picnics), PicnicId, picnicId) ==> picnics == old(picnics)
      ensures usersPicnics == old(usersPicnics) && contributions == old(contributions)
      ensures forall id :: (Lookup(picnics, PicnicId, id, ZeroPicnic)
        == if id == picnicId then ZeroPicnic else Lookup(old(picnics), PicnicId, id, ZeroPicnic))
    {
      WithoutKeyKeyed(picnics, PicnicId, lastPicnicId, picnicId);
      if !HasKey(picnics, PicnicId, picnicId) {
        WithoutAbsentKey(picnics, PicnicId, picnicId);
      }
      forall id ensures Lookup(WithoutKey(picnics, PicnicId, picnicId), PicnicId, id, ZeroPicnic)
        == if id == picnicId then ZeroPicnic else Lookup(picnics, PicnicId, id, ZeroPicnic)
      {
        LookupAfterDelete(picnics, PicnicId, picnicId, id, ZeroPicnic);
      }
      picnics := WithoutKey(picnics, PicnicId, picnicId);
      ok, err := true, None;
    }

    // -------------------------------------------------------------------------
    // User

    /** INSERT INTO users (name): fails with the UNIQUE error, changing nothing,
        when some user already has the name; otherwise appends a row with the
        next id. */
    method CreateUser(newUser: User) returns (ok: bool, err: Option<DbError>)
      requires Valid()
      modifies this`users, this`lastUserId, this`issuedUserIds
      ensures Valid()
      ensures ok <==> !NameTaken(old(users), newUser.name)
      ensures !ok ==> err == Some(UniqueConstraintFailed("users.name"))
      ensures !ok ==> users == old(users) && lastUserId == old(lastUserId) && issuedUserIds == old(issuedUserIds)
      ensures ok ==> err == None && lastUserId == old(lastUserId) + 1
      ensures ok ==> forall x :: x in old(issuedUserIds) ==> x < lastUserId
      ensures ok ==> issuedUserIds == old(issuedUserIds) + {lastUserId}
      ensures ok ==> users == old(users) + [User(lastUserId, newUser.name)]
      ensures ok ==> forall id :: (Lookup(users, UserId, id, ZeroUser)
        == if id == lastUserId then User(lastUserId, newUser.name) else Lookup(old(users), UserId, id, ZeroUser))
    {
      if NameTaken(users, newUser.name) {
        return false, Some(UniqueConstraintFailed("users.name"));
      }
      var row := User(lastUserId + 1, newUser.name);
      AppendFresh(users, UserId, lastUserId, row);
      IssueNext(issuedUserIds, lastUserId);
      AppendKeepsNamesUnique(users, row);
      LookupsAfterAppend(users, UserId, row, ZeroUser);
      users := users + [row];
      lastUserId := lastUserId + 1;
      issuedUserIds := issuedUserIds + {lastUserId};
      ok, err := true, None;
    }

    /** SELECT id, name FROM users WHERE id = ?: the stored row, or the zero
        User with no error when none has that id. */
    method GetUserById(id: int) returns (user: User, err: Option<DbError>)
      requires Valid()
      ensures err == None
      ensures HasKey(users, UserId, id) ==> user in users && user.id == id
      ensures !HasKey(users, UserId, id) ==> user == ZeroUser
      ensures user == ZeroUser <==> !HasKey(users, UserId, id)
    {
      user := Lookup(users, UserId, id, ZeroUser);
      err := None;
    }

    /** SELECT id, name FROM users: every row, collected row by row. */
    method GetUsers() returns (result: seq<User>, err: Option<DbError>)
      ensures result == users && err == None
    {
      result := [];
      var i := 0;
      while i < |users|
        invariant 0 <= i <= |users|
        invariant result == users[..i]
      {
        result := result + [users[i]];
        i := i + 1;
      }
      err := None;
    }

    /** UPDATE users SET name = ? WHERE id = ?: fails with the UNIQUE error,
        changing nothing, when the row exists and a different row holds the
        name; otherwise renames the matching row (success even when none matches). */
    method UpdateUser(updatedUser: User, idToUpdate: int) returns (ok: bool, err: Option<DbError>)
      requires Valid()
      modifies this`users
      ensures Valid()
      ensures ok <==> !(HasKey(old(users), UserId, idToUpdate) && NameHeldByOther(old(users), updatedUser.name, idToUpdate))
      ensures !ok ==> err == Some(UniqueConstraintFailed("users.name")) && users == old(users)
      ensures ok ==> err == None
      ensures ok ==> users == Overwrite(old(users), UserId, idToUpdate, User(idToUpdate, updatedUser.name))
      ensures !HasKey(old(users), UserId, idToUpdate) ==> users == old(users)
      ensures forall id :: (Lookup(users, UserId, id, ZeroUser)
        == if ok && id == idToUpdate && HasKey(old(users), UserId, idToUpdate)
           then User(idToUpdate, updatedUser.name)
           else Lookup(old(users), UserId, id, ZeroUser))
    {
      if HasKey(users, UserId, idToUpdate) && NameHeldByOther(users, updatedUser.name, idToUpdate) {
        return false, Some(UniqueConstraintFailed("users.name"));
      }
      var row := User(idToUpdate, updatedUser.name);
      OverwriteKeyed(users, UserId, lastUserId, idToUpdate, row);
      RenameKeepsNamesUnique(users, idToUpdate, row);
      if !HasKey(users, UserId, idToUpdate) {
        OverwriteAbsent(users, UserId, idToUpdate, row);
      }
      forall id ensures Lookup(Overwrite(users, UserId, idToUpdate, row), UserId, id, ZeroUser)
        == if id == idToUpdate && HasKey(users, UserId, idToUpdate) then row
           else Lookup(users, UserId, id, ZeroUser)
      {
        LookupAfterOverwrite(users, UserId, idToUpdate, row, id, ZeroUser);
      }
      users := Overwrite(users, UserId, idToUpdate, row);
      ok, err := true, None;
    }

    // -------------------------------------------------------------------------
    // Links between users and picnics

    /** INSERT INTO users_picnics (user_id, picnic_id): appends a link row with
        the next id, whether or not the user and picnic exist and whether or
        not the same pair is already linked. */
    method AddUserToPicnic(userID: int, picnicID: int) returns (ok: bool, err: Option<DbError>)
      requires Valid()
      modifies this`usersPicnics, this`lastUserPicnicId, this`issuedUserPicnicIds
      ensures Valid()
      ensures ok && err == None
      ensures lastUserPicnicId == old(lastUserPicnicId) + 1
      ensures forall x :: x in old(issuedUserPicnicIds) ==> x < lastUserPicnicId
      ensures issuedUserPicnicIds == old(issuedUserPicnicIds) + {lastUserPicnicId}
      ensures usersPicnics == old(usersPicnics) + [UserPicnic(lastUserPicnicId, userID, picnicID)]
    {
      var link := UserPicnic(lastUserPicnicId + 1, userID, picnicID);
      AppendFresh(usersPicnics, UserPicnicId, lastUserPicnicId, link);
      IssueNext(issuedUserPicnicIds, lastUserPicnicId);
      usersPicnics := usersPicnics + [link];
      lastUserPicnicId := lastUserPicnicId + 1;
      issuedUserPicnicIds := issuedUserPicnicIds + {lastUserPicnicId};
      ok, err := true, None;
    }

    /** users INNER JOIN users_picnics … WHERE picnic_id = ?: one user per link
        row of the picnic whose user exists, collected row by row. */
    method GetUsersByPicnic(picnicId: int) returns (result: seq<User>, err: Option<DbError>)
      ensures result == UsersOfPicnic(usersPicnics, users, picnicId) && err == None
    {
      result := [];
      var i := 0;
      while i < |usersPicnics|
        invariant 0 <= i <= |usersPicnics|
        invariant result == UsersOfPicnic(usersPicnics[..i], users, picnicId)
      {
        var link := usersPicnics[i];
        UsersOfPicnicAddLink(usersPicnics[..i], users, link, picnicId);
        assert usersPicnics[..i + 1] == usersPicnics[..i] + [link];
        if link.picnicId == picnicId {
          result := result + WithKey(users, UserId, link.userId);
        }
        i := i + 1;
      }
      assert usersPicnics[..i] == usersPicnics;
      err := None;
    }

    /** picnics INNER JOIN users_picnics … WHERE user_id = ?: one picnic per
        link row of the user whose picnic exists, collected row by row. */
    method GetPicnicsByUser(userId: int) returns (result: seq<Picnic>, err: Option<DbError>)
      ensures result == PicnicsOfUser(usersPicnics, picnics, userId) && err == None
    {
      result := [];
      var i := 0;
      while i < |usersPicnics|
        invariant 0 <= i <= |usersPicnics|
        invariant result == PicnicsOfUser(usersPicnics[..i], picnics, userId)
      {
        var link := usersPicnics[i];
        PicnicsOfUserAddLink(usersPicnics[..i], picnics, link, userId);
        assert usersPicnics[..i + 1] == usersPicnics[..i] + [link];
        if link.userId == userId {
          result := result + WithKey(picnics, PicnicId, link.picnicId);
        }
        i := i + 1;
      }
      assert usersPicnics[..i] == usersPicnics;
      err := None;
    }

    // -------------------------------------------------------------------------
    // FoodItem

    /** INSERT INTO food_items (name, measure, url): appends a row with the next id. */
    method CreateFoodItem(newFoodItem: FoodItem) returns (ok: bool, err: Option<DbError>)
      requires Valid()
      modifies this`foodItems, this`lastFoodItemId, this`issuedFoodItemIds
      ensures Valid()
      ensures ok && err == None
      ensures lastFoodItemId == old(lastFoodItemId) + 1
      ensures forall x :: x in old(issuedFoodItemIds) ==> x < lastFoodItemId
      ensures issuedFoodItemIds == old(issuedFoodItemIds) + {lastFoodItemId}
      ensures foodItems == old(foodItems) + [FoodItem(lastFoodItemId, newFoodItem.name, newFoodItem.url, newFoodItem.measure)]
      ensures forall id :: (Lookup(foodItems, FoodItemId, id, ZeroFoodItem)
        == if id == lastFoodItemId then FoodItem(lastFoodItemId, newFoodItem.name, newFoodItem.url, newFoodItem.measure)
           else Lookup(old(foodItems), FoodItemId, id, ZeroFoodItem))
    {
      var row := FoodItem(lastFoodItemId + 1, newFoodItem.name, newFoodItem.url, newFoodItem.measure);
      AppendFresh(foodItems, FoodItemId, lastFoodItemId, row);
      IssueNext(issuedFoodItemIds, lastFoodItemId);
      LookupsAfterAppend(foodItems, FoodItemId, row, ZeroFoodItem);
      foodItems := foodItems + [row];
      lastFoodItemId := lastFoodItemId + 1;
      issuedFoodItemIds := issuedFoodItemIds + {lastFoodItemId};
      ok, err := true, None;
    }

    /** SELECT … FROM food_items WHERE id = ?: the stored row, or the zero
        FoodItem with no error when none has that id. */
    method GetFoodItemById(id: int) returns (foodItem: FoodItem, err: Option<DbError>)
      requires Valid()
      ensures err == None
      ensures HasKey(foodItems, FoodItemId, id) ==> foodItem in foodItems && foodItem.id == id
      ensures !HasKey(foodItems, FoodItemId, id) ==> foodItem == ZeroFoodItem
      ensures foodItem == ZeroFoodItem <==> !HasKey(foodItems, FoodItemId, id)
    {
      foodItem := Lookup(foodItems, FoodItemId, id, ZeroFoodItem);
      err := None;
    }

    /** SELECT … FROM food_items: every row, collected row by row. */
    method GetFoodItems() returns (result: seq<FoodItem>, err: Option<DbError>)
      ensures result == foodItems && err == None
    {
      result := [];
      var i := 0;
      while i < |foodItems|
        invariant 0 <= i <= |foodItems|
        invariant result == foodItems[..i]
      {
        result := result + [foodItems[i]];
        i := i + 1;
      }
      err := None;
    }

    /** UPDATE food_items SET name, measure, url WHERE id = ?: overwrites the
        three columns of the matching row; reports success even when none matches. */
    method UpdateFoodItem(updatedFoodItem: FoodItem, idToUpdate: int) returns (ok: bool, err: Option<DbError>)
      requires Valid()
      modifies this`foodItems
      ensures Valid()
      ensures ok && err == None
      ensures foodItems == Overwrite(old(foodItems), FoodItemId, idToUpdate,
                                     FoodItem(idToUpdate, updatedFoodItem.name, updatedFoodItem.url, updatedFoodItem.measure))
      ensures !HasKey(old(foodItems), FoodItemId, idToUpdate) ==> foodItems == old(foodItems)
      ensures forall id :: (Lookup(foodItems, FoodItemId, id, ZeroFoodItem)
        == if id == idToUpdate && HasKey(old(foodItems), FoodItemId, idToUpdate)
           then FoodItem(idToUpdate, updatedFoodItem.name, updatedFoodItem.url, updatedFoodItem.measure)
           else Lookup(old(foodItems), FoodItemId, id, ZeroFoodItem))
    {
      var row := FoodItem(idToUpdate, updatedFoodItem.name, updatedFoodItem.url, updatedFoodItem.measure);
      OverwriteKeyed(foodItems, FoodItemId, lastFoodItemId, idToUpdate, row);
      if !HasKey(foodItems, FoodItemId, idToUpdate) {
        OverwriteAbsent(foodItems, FoodItemId, idToUpdate, row);
      }
      forall id ensures Lookup(Overwrite(foodItems, FoodItemId, idToUpdate, row), FoodItemId, id, ZeroFoodItem)
        == if id == idToUpdate && HasKey(foodItems, FoodItemId, idToUpdate) then row
           else Lookup(foodItems, FoodItemId, id, ZeroFoodItem)
      {
        LookupAfterOverwrite(foodItems, FoodItemId, idToUpdate, row, id, ZeroFoodItem);
      }
      foodItems := Overwrite(foodItems, FoodItemId, idToUpdate, row);
      ok, err := true, None;
    }

    // -------------------------------------------------------------------------
    // Contribution

    /** INSERT INTO contributions (user_id, picnic_id, food_item_id, quantity):
        appends a row with the next id; the referenced rows need not exist and
        the quantity is not checked. */
    method CreateContribution(newContribution: Contribution) returns (ok: bool, err: Option<DbError>)
      requires Valid()
      modifies this`contributions, this`lastContributionId, this`issuedContributionIds
      ensures Valid()
      ensures ok && err == None
      ensures lastContributionId == old(lastContributionId) + 1
      ensures forall x :: x in old(issuedContributionIds) ==> x < lastContributionId
      ensures issuedContributionIds == old(issuedContributionIds) + {lastContributionId}
      ensures contributions == old(contributions)
        + [Contribution(lastContributionId, newContribution.userId, newContribution.picnicId,
                        newContribution.foodItemId, newContribution.quantity)]
    {
      var row := Contribution(lastContributionId + 1, newContribution.userId, newContribution.picnicId,
                              newContribution.foodItemId, newContribution.quantity);
      AppendFresh(contributions, ContributionId, lastContributionId, row);
      IssueNext(issuedContributionIds, lastContributionId);
      contributions := contributions + [row];
      lastContributionId := lastContributionId + 1;
      issuedContributionIds := issuedContributionIds + {lastContributionId};
      ok, err := true, None;
    }

    /** SELECT … FROM contributions WHERE user_id = ? AND picnic_id = ? (one
        row): a contribution of that user to that picnic, or the zero
        Contribution with no error when there is none. */
    method GetContributionsOfUserToPicnic(idUser: int, idPicnic: int) returns (contribution: Contribution, err: Option<DbError>)
      requires Valid()
      ensures err == None
      ensures contribution == ZeroContribution
          <==> !(exists c :: c in contributions && c.userId == idUser && c.picnicId == idPicnic)
      ensures (exists c :: c in contributions && c.userId == idUser && c.picnicId == idPicnic) ==>
        contribution in contributions && contribution.userId == idUser && contribution.picnicId == idPicnic
      ensures !(exists c :: c in contributions && c.userId == idUser && c.picnicId == idPicnic) ==>
        contribution == ZeroContribution
    {
      contribution := FirstContribution(contributions, idUser, idPicnic);
      err := None;
    }

    /** SELECT … FROM contributions: every row, collected row by row. */
    method GetContributions() returns (result: seq<Contribution>, err: Option<DbError>)
      ensures result == contributions && err == None
    {
      result := [];
      var i := 0;
      while i < |contributions|
        invariant 0 <= i <= |contributions|
        invariant result == contributions[..i]
      {
        result := result + [contributions[i]];
        i := i + 1;
      }
      err := None;
    }

    /** UPDATE contributions SET user_id, picnic_id, food_item_id, quantity
        WHERE id = ?: overwrites the four columns of the matching row; reports
        success even when none matches. */
    method UpdateContribution(updatedContribution: Contribution, idToUpdate: int) returns (ok: bool, err: Option<DbError>)
      requires Valid()
      modifies this`contributions
      ensures Valid()
      ensures ok && err == None
      ensures contributions == Overwrite(old(contributions), ContributionId, idToUpdate,
        Contribution(idToUpdate, updatedContribution.userId, updatedContribution.picnicId,
                     updatedContribution.foodItemId, updatedContribution.quantity))
      ensures !HasKey(old(contributions), ContributionId, idToUpdate) ==> contributions == old(contributions)
      ensures forall id :: (Lookup(contributions, ContributionId, id, ZeroContribution)
        == if id == idToUpdate && HasKey(old(contributions), ContributionId, idToUpdate)
           then Contribution(idToUpdate, updatedContribution.userId, updatedContribution.picnicId,
                             updatedContribution.foodItemId, updatedContribution.quantity)
           else Lookup(old(contributions), ContributionId, id, ZeroContribution))
    {
      var row := Contribution(idToUpdate, updatedContribution.userId, updatedContribution.picnicId,
                              updatedContribution.foodItemId, updatedContribution.quantity);
      OverwriteKeyed(contributions, ContributionId, lastContributionId, idToUpdate, row);
      if !HasKey(contributions, ContributionId, idToUpdate) {
        OverwriteAbsent(contributions, ContributionId, idToUpdate, row);
      }
      forall id ensures Lookup(Overwrite(contributions, ContributionId, idToUpdate, row), ContributionId, id, ZeroContribution)
        == if id == idToUpdate && HasKey(contributions, ContributionId, idToUpdate) then row
           else Lookup(contributions, ContributionId, id, ZeroContribution)
      {
        LookupAfterOverwrite(contributions, ContributionId, idToUpdate, row, id, ZeroContribution);
      }
      contributions := Overwrite(contributions, ContributionId, idToUpdate, row);
      ok, err := true, None;
    }

    /** DELETE from contributions WHERE id = ?: removes the matching row;
        reports success even when none matches. */
    method DeleteContribution(contributionId: int) returns (ok: bool, err: Option<DbError>)
      requires Valid()
      modifies this`contributions
      ensures Valid()
      ensures ok && err == None
      ensures contributions == WithoutKey(old(contributions), ContributionId, contributionId)
      ensures !HasKey(old(contributions), ContributionId, contributionId) ==> contributions == old(contributions)
      ensures forall id :: (Lookup(contributions, ContributionId, id, ZeroContribution)
        == if id == contributionId then ZeroContribution else Lookup(old(contributions), ContributionId, id, ZeroContribution))
    {
      WithoutKeyKeyed(contributions, ContributionId, lastContributionId, contributionId);
      if !HasKey(contributions, ContributionId, contributionId) {
        WithoutAbsentKey(contributions, ContributionId, contributionId);
      }
      forall id ensures Lookup(WithoutKey(contributions, ContributionId, contributionId), ContributionId, id, ZeroContribution)
        == if id == contributionId then ZeroContribution else Lookup(contributions, ContributionId, id, ZeroContribution)
      {
        LookupAfterDelete(contributions, ContributionId, contributionId, id, ZeroContribution);
      }
      contributions := WithoutKey(contributions, ContributionId, contributionId);
      ok, err := true, None;
    }
  }
}
