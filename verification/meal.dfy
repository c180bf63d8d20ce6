/**
  The user table as app.py reads and writes it: an integer id, a username,
  the bcrypt digest of the password and a role string. models/user.py is
  not part of this model; these are the columns app.py uses.
 */
module UserTable {
  import opened Wrappers
  import opened NatSets

  type UserId = nat

  /** The bytes bcrypt.hashpw returns. */
  type Digest = seq<bv8>

  datatype User = User(id: UserId, username: string, password: Digest, role: string)

  /** The role every registration assigns; any other role string is privileged. */
  const DefaultRole: string := "user"

  /** The table is keyed by each row's own primary key. */
  predicate Keyed(users: map<UserId, User>) {
    forall id :: id in users ==> users[id].id == id
  }

  /**
    User.query.filter_by(username=name).first(): the row with that username
    and the least id, or None. Usernames are not unique here, since nothing
    in app.py checks for a duplicate.
   */
  ghost function FirstByUsername(users: map<UserId, User>, name: string): (r: Option<UserId>)
    ensures r.Some? <==> exists id :: id in users && users[id].username == name
    ensures r.Some? ==> r.value in users && users[r.value].username == name
    ensures r.Some? ==> forall id :: id in users && users[id].username == name ==> r.value <= id
  {
    var named := set id | id in users && users[id].username == name;
    assert forall id :: id in users && users[id].username == name ==> id in named;
    if named == {} then None else Some(LeastOf(named))
  }
}

/**
  The meal table of models/meal.py: an integer primary key, a name, a
  description, one combined date-time, a boolean diet flag and the id of
  the owning user. Every column is NOT NULL, which the Dafny types give
  for free: no field of a Meal can be absent.
 */
module MealTable {
  import opened DateTimes
  import opened UserTable

  type MealId = nat

  datatype Meal = Meal(
    id: MealId,
    name: string,
    description: string,
    datetime: DateTime,
    diet: bool,
    idUser: UserId)

  /** The declared length of the name column (String(80)); SQLite does not enforce it. */
  const NameLength: nat := 80

  /**
    The table's constraints: the primary key is unique (rows are keyed by
    it), the date-time column holds real date-times, and id_user is a
    foreign key into the user table.
   */
  predicate WellFormed(users: map<UserId, User>, meals: map<MealId, Meal>) {
    && (forall id :: id in meals ==> meals[id].id == id)
    && (forall id :: id in meals ==> Valid(meals[id].datetime))
    && (forall id :: id in meals ==> meals[id].idUser in users)
  }
}
