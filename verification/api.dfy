/**
  The route handlers of app.py over an in-memory store: the user table,
  the meal table and the session's bound user. Every handler answers with
  a status code; a handler changes the tables only on its success path,
  which is where app.py commits. The user that flask_login resolves for
  a @login_required route is passed in as caller.
 */
module MealApi {
  import opened Wrappers
  import opened NatSets
  import opened DateTimes
  import opened UserTable
  import opened MealTable
  import opened MealRules

  /** The HTTP status of a response: 200, 201, 400, 403 and 404. */
  datatype Status = Ok | Created | BadRequest | Forbidden | NotFound

  /** The random salt bcrypt.gensalt returns. */
  type Salt = seq<bv8>

  /** Login succeeds: both fields truthy, the first user with that name exists and the password checks. */
  ghost predicate Authenticates(
    users: map<UserId, User>, username: Option<string>, password: Option<string>,
    checkpw: (string, Digest) -> bool)
  {
    && Truthy(username) && Truthy(password)
    && FirstByUsername(users, username.value).Some?
    && checkpw(password.value, users[FirstByUsername(users, username.value).value].password)
  }

  class Store {
    var users: map<UserId, User>
    var meals: map<MealId, Meal>
    /** The user id flask_login keeps in the session, if any. */
    var session: Option<UserId>

    ghost predicate Valid()
      reads this
    {
      StoreInvariant(users, meals) && (session.Some? ==> session.value in users)
    }

    /** caller is current_user: the session is bound to it and it is the stored row. */
    ghost predicate SignedIn(caller: User)
      reads this
    {
      session == Some(caller.id) && caller.id in users && users[caller.id] == caller
    }

    constructor ()
      ensures Valid()
      ensures users == map[] && meals == map[] && session == None
    {
      users, meals, session := map[], map[], None;
    }

    /** POST /user */
    method RegisterUser(
      username: Option<string>, password: Option<string>,
      hash: (string, Salt) -> Digest, salt: Salt)
      returns (status: Status, ghost id: UserId)
      requires Valid()
      modifies this
      ensures Valid()
      ensures meals == old(meals) && session == old(session)
      ensures status == Created || status == BadRequest
      ensures status == Created <==> Truthy(username) && Truthy(password)
      ensures status == Created ==>
        && id !in old(users)
        && users == old(users)[id := User(id, username.value, hash(password.value, salt), DefaultRole)]
        && |users| == |old(users)| + 1
      ensures status == BadRequest ==> users == old(users)
    {
      if Truthy(username) && Truthy(password) {
        var digest := hash(password.value, salt);
        ghost var bound := UpperBound(users.Keys);
        assert bound !in users;
        var newId: UserId :| newId !in users;
        var user := User(newId, username.value, digest, DefaultRole);
        StoreUserKeepsInvariant(users, meals, user);
        users := users[newId := user];
        return Created, newId;
      }
      return BadRequest, 0;
    }

    /** POST /login: unknown user and wrong password give the same answer. */
    method Login(username: Option<string>, password: Option<string>, checkpw: (string, Digest) -> bool)
      returns (status: Status)
      requires Valid()
      modifies this
      ensures Valid()
      ensures users == old(users) && meals == old(meals)
      ensures status == Ok || status == BadRequest
      ensures status == Ok <==> Authenticates(users, username, password, checkpw)
      ensures status == Ok ==> session == FirstByUsername(users, username.value)
      ensures status == BadRequest ==> session == old(session)
    {
      if Truthy(username) && Truthy(password) {
        var named := set id | id in users && users[id].username == username.value;
        if named != {} {
          ghost var least := LeastOf(named);
          var first: UserId :| first in named && forall id :: id in named ==> first <= id;
          assert first == least;
          assert FirstByUsername(users, username.value) == Some(first);
          var user := users[first];
          if checkpw(password.value, user.password) {
            session := Some(user.id);
            return Ok;
          }
        } else {
          assert FirstByUsername(users, username.value).None?;
        }
      }
      return BadRequest;
    }

    /** GET /logout */
    method Logout() returns (status: Status)
      requires Valid() && session.Some?
      modifies this
      ensures Valid()
      ensures users == old(users) && meals == old(meals)
      ensures session == None && status == Ok
    {
      session := None;
      return Ok;
    }

    /** POST /meal */
    method RegisterMeal(caller: User, body: MealBody) returns (status: Status, ghost id: MealId)
      requires Valid() && SignedIn(caller)
      modifies this
      ensures Valid()
      ensures users == old(users) && session == old(session)
      ensures status == Created || status == BadRequest
      ensures status == Created <==> CanCreate(body)
      ensures status == Created ==>
        id !in old(meals) && meals == old(meals)[id := NewMeal(id, body, caller.id)]
      ensures status == BadRequest ==> meals == old(meals)
    {
      status, id := BadRequest, 0;
      if HasCreateData(body) {
        if CanCreate(body) {
          ghost var bound := UpperBound(meals.Keys);
          assert bound !in meals;
          var newId: MealId :| newId !in meals;
          var meal := NewMeal(newId, body, caller.id);
          StoreMealKeepsInvariant(users, meals, meal);
          meals := meals[newId := meal];
          status, id := Created, newId;
        }
      }
    }

    /**
      PUT /meal/<id>: 404, then 403, then the no-data 400; the fields are
      then assigned one after another and committed only if every parse
      succeeded.
     */
    method UpdateMeal(caller: User, idMeal: MealId, body: MealBody) returns (status: Status)
      requires Valid() && SignedIn(caller)
      modifies this
      ensures Valid()
      ensures users == old(users) && session == old(session)
      ensures status == NotFound <==> idMeal !in old(meals)
      ensures status == Forbidden <==> idMeal in old(meals) && Denied(caller, old(meals)[idMeal].idUser)
      ensures status == BadRequest <==>
        && idMeal in old(meals) && !Denied(caller, old(meals)[idMeal].idUser)
        && (!HasUpdateData(body) || MergeUpdate(old(meals)[idMeal], body).None?)
      ensures status == Ok <==>
        && idMeal in old(meals) && !Denied(caller, old(meals)[idMeal].idUser)
        && HasUpdateData(body) && MergeUpdate(old(meals)[idMeal], body).Some?
      ensures status == Ok ==> meals == old(meals)[idMeal := MergeUpdate(old(meals)[idMeal], body).value]
      ensures status != Ok ==> meals == old(meals)
    {
      if idMeal !in meals {
        return NotFound;
      }
      var meal := meals[idMeal];
      if Denied(caller, meal.idUser) {
        return Forbidden;
      }
      if !HasUpdateData(body) {
        return BadRequest;
      }
      var updated := AssignFields(meal, body);
      if updated.None? {
        return BadRequest;
      }
      meal := updated.value;
      StoreMealKeepsInvariant(users, meals, meal);
      meals := meals[idMeal := meal];
      return Ok;
    }

    /** DELETE /meal/<id> */
    method DeleteMeal(caller: User, idMeal: MealId) returns (status: Status)
      requires Valid() && SignedIn(caller)
      modifies this
      ensures Valid()
      ensures users == old(users) && session == old(session)
      ensures status == NotFound <==> idMeal !in old(meals)
      ensures status == Forbidden <==> idMeal in old(meals) && Denied(caller, old(meals)[idMeal].idUser)
      ensures status == Ok <==> idMeal in old(meals) && !Denied(caller, old(meals)[idMeal].idUser)
      ensures status == Ok ==> meals == old(meals) - {idMeal}
      ensures status != Ok ==> meals == old(meals)
    {
      if idMeal !in meals {
        return NotFound;
      }
      if Denied(caller, meals[idMeal].idUser) {
        return Forbidden;
      }
      RemoveMealKeepsInvariant(users, meals, idMeal);
      meals := meals - {idMeal};
      return Ok;
    }

    /** GET /meals/<id_user>: the user's meals in ascending id order. */
    method GetMeals(caller: User, idUser: UserId) returns (status: Status, list: seq<MealView>)
      requires Valid() && SignedIn(caller)
      ensures status == NotFound <==> idUser !in users
      ensures status == Forbidden <==> idUser in users && Denied(caller, idUser)
      ensures status == Ok <==> idUser in users && !Denied(caller, idUser)
      ensures status == Ok ==> IsListing(list, meals, idUser)
      ensures status != Ok ==> list == []
    {
      if idUser !in users {
        return NotFound, [];
      }
      var user := users[idUser];
      if Denied(caller, user.id) {
        return Forbidden, [];
      }
      var todo := set id | id in meals && meals[id].idUser == user.id;
      list := [];
      PartialListingBounds(list, todo, meals, idUser);
      while todo != {}
        invariant PartialListing(list, todo, meals, idUser)
        decreases todo
      {
        ghost var least := LeastOf(todo);
        var next: MealId :| next in todo && forall id :: id in todo ==> next <= id;
        ListingStep(list, todo, meals, idUser, next);
        list := list + [View(meals[next])];
        todo := todo - {next};
      }
      PartialListingBounds(list, todo, meals, idUser);
      return Ok, list;
    }

    /** GET /meal/<id> */
    method GetMeal(caller: User, idMeal: MealId) returns (status: Status, view: Option<MealView>)
      requires Valid() && SignedIn(caller)
      ensures status == NotFound <==> idMeal !in meals
      ensures status == Forbidden <==> idMeal in meals && Denied(caller, meals[idMeal].idUser)
      ensures status == Ok <==> idMeal in meals && !Denied(caller, meals[idMeal].idUser)
      ensures status == Ok ==> view == Some(View(meals[idMeal])) && view.value.id == idMeal
      ensures status != Ok ==> view == None
    {
      if idMeal !in meals {
        return NotFound, None;
      }
      var meal := meals[idMeal];
      if Denied(caller, meal.idUser) {
        return Forbidden, None;
      }
      return Ok, Some(View(meal));
    }
  }

  /**
    The field assignments of PUT /meal/<id>, one after another on the
    loaded row: None when the date or the time fails to parse, in which
    case the handler returns before its commit.
   */
  method AssignFields(meal: Meal, body: MealBody) returns (updated: Option<Meal>)
    ensures updated == MergeUpdate(meal, body)
  {
    var m := meal;
    if Truthy(body.name) {
      m := m.(name := body.name.value);
    }
    if Truthy(body.description) {
      m := m.(description := body.description.value);
    }
    if Truthy(body.date) {
      var newDate := ParseDate(body.date.value);
      if newDate.None? {
        assert ApplyDate(meal.datetime, body.date).None?;
        return None;
      }
      m := m.(datetime := ReplaceDate(m.datetime, newDate.value));
    }
    ghost var dated := m.datetime;
    assert ApplyDate(meal.datetime, body.date) == Some(dated);
    if Truthy(body.time) {
      var newTime := ParseTime(body.time.value);
      if newTime.None? {
        assert ApplyTime(dated, body.time).None?;
        return None;
      }
      m := m.(datetime := ReplaceTime(m.datetime, newTime.value));
    }
    assert ApplyTime(dated, body.time) == Some(m.datetime);
    if body.diet == Some(true) {
      m := m.(diet := true);
    }
    return Some(m);
  }

  /** A meal its owner (or a privileged user) deletes is then not found. */
  method DeleteThenGet(store: Store, caller: User, idMeal: MealId) returns (deleted: Status, fetched: Status)
    requires store.Valid() && store.SignedIn(caller)
    requires idMeal in store.meals && !Denied(caller, store.meals[idMeal].idUser)
    modifies store
    ensures deleted == Ok && fetched == NotFound
  {
    deleted := store.DeleteMeal(caller, idMeal);
    var view;
    fetched, view := store.GetMeal(caller, idMeal);
  }

  /**
    A meal created and then read back by its creator shows what was
    submitted, with date + " " + time as its datetime (years from 1000 on).
   */
  method CreateThenGet(store: Store, caller: User, body: MealBody) returns (created: Status, view: Option<MealView>)
    requires store.Valid() && store.SignedIn(caller)
    requires CanCreate(body) && NewMeal(0, body, caller.id).datetime.year >= 1000
    modifies store
    ensures created == Created && view.Some?
    ensures view.value.name == body.name.value && view.value.description == body.description.value
    ensures view.value.datetime == body.date.value + " " + body.time.value
    ensures view.value.diet == body.diet.value
  {
    var before := store.meals.Keys;
    ghost var newId;
    created, newId := store.RegisterMeal(caller, body);
    assert newId in store.meals.Keys - before;
    var id :| id in store.meals.Keys - before;
    var fetched;
    fetched, view := store.GetMeal(caller, id);
    CreatedMealReadsBack(id, body, caller.id);
  }
}
