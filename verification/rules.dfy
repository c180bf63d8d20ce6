/**
  The pure decisions app.py makes inside its meal handlers: which request
  fields count as given (Python truthiness), the owner/role permission
  test, the partial update of a meal, and the read view of a meal.
 */
module MealRules {
  import opened Wrappers
  import opened DateTimes
  import opened UserTable
  import opened MealTable

  /** The fields of a meal request body; None for a key that is absent or null. */
  datatype MealBody = MealBody(
    name: Option<string>,
    description: Option<string>,
    date: Option<string>,
    time: Option<string>,
    diet: Option<bool>)

  /** Python truthiness of a string field: present, not null and not empty. */
  predicate Truthy(field: Option<string>) {
    field.Some? && field.value != ""
  }

  /**
    The permission test the update, delete and both read handlers repeat:
    refused only when the caller does not own the resource and the caller's
    role is exactly "user".
   */
  predicate Denied(caller: User, owner: UserId)
    ensures Denied(caller, owner) ==> owner != caller.id
    ensures caller.role != DefaultRole ==> !Denied(caller, owner)
  {
    owner != caller.id && caller.role == DefaultRole
  }

  /** The create handler's "required data missing" test, negated: diet may be false but not null. */
  predicate HasCreateData(body: MealBody)
    ensures HasCreateData(body) ==> HasUpdateData(body)
  {
    Truthy(body.name) && Truthy(body.description) && Truthy(body.date) && Truthy(body.time)
    && body.diet.Some?
  }

  /** The update handler's "no data to update" test, negated. */
  predicate HasUpdateData(body: MealBody) {
    Truthy(body.name) || Truthy(body.description) || Truthy(body.date) || Truthy(body.time)
    || body.diet.Some?
  }

  /** What the handlers keep true of every meal they store: name and description are never empty. */
  predicate Complete(m: Meal) {
    m.name != "" && m.description != "" && Valid(m.datetime)
  }

  /** The store invariant the handlers keep: the tables' constraints, and every meal complete. */
  predicate StoreInvariant(users: map<UserId, User>, meals: map<MealId, Meal>) {
    Keyed(users) && WellFormed(users, meals) && forall id :: id in meals ==> Complete(meals[id])
  }

  /** Storing a complete meal under its own id, owned by an existing user, keeps the invariant. */
  lemma StoreMealKeepsInvariant(users: map<UserId, User>, meals: map<MealId, Meal>, m: Meal)
    requires StoreInvariant(users, meals)
    requires m.idUser in users && Complete(m)
    ensures StoreInvariant(users, meals[m.id := m])
  {
  }

  /** Removing a meal keeps the invariant. */
  lemma RemoveMealKeepsInvariant(users: map<UserId, User>, meals: map<MealId, Meal>, id: MealId)
    requires StoreInvariant(users, meals)
    ensures StoreInvariant(users, meals - {id})
  {
  }

  /** Adding a user under its own id keeps the invariant. */
  lemma StoreUserKeepsInvariant(users: map<UserId, User>, meals: map<MealId, Meal>, u: User)
    requires StoreInvariant(users, meals)
    ensures StoreInvariant(users[u.id := u], meals)
  {
  }

  /** The date step of an update: only a truthy date is parsed, and it replaces year, month and day. */
  function ApplyDate(dt: DateTime, date: Option<string>): Option<DateTime> {
    if !Truthy(date) then Some(dt)
    else
      match ParseDate(date.value)
      case None => None
      case Some(d) => Some(ReplaceDate(dt, d))
  }

  /** The time step of an update: only a truthy time is parsed, and it replaces hour, minute and second. */
  function ApplyTime(dt: DateTime, time: Option<string>): Option<DateTime> {
    if !Truthy(time) then Some(dt)
    else
      match ParseTime(time.value)
      case None => None
      case Some(t) => Some(ReplaceTime(dt, t))
  }

  /**
    The meal a successful update leaves behind, or None when the date or
    the time does not parse (the handler then answers 400 and commits
    nothing). Name and description change only when truthy; diet only
    when true, so a supplied false is ignored.
   */
  function MergeUpdate(m: Meal, body: MealBody): (r: Option<Meal>)
    ensures r.Some? ==> r.value.id == m.id && r.value.idUser == m.idUser
    ensures r.None? <==>
      (Truthy(body.date) && ParseDate(body.date.value).None?)
      || (Truthy(body.time) && ParseTime(body.time.value).None?)
    ensures r.Some? && Complete(m) ==> Complete(r.value)
  {
    match ApplyDate(m.datetime, body.date)
    case None => None
    case Some(dated) =>
      match ApplyTime(dated, body.time)
      case None => None
      case Some(timed) =>
        Some(m.(
          name := if Truthy(body.name) then body.name.value else m.name,
          description := if Truthy(body.description) then body.description.value else m.description,
          datetime := timed,
          diet := if body.diet == Some(true) then true else m.diet))
  }

  /** A date-only update moves the meal to the parsed day and keeps its time of day. */
  lemma DateOnlyUpdateKeepsTime(m: Meal, body: MealBody)
    requires Truthy(body.date) && !Truthy(body.time) && ParseDate(body.date.value).Some?
    ensures MergeUpdate(m, body).Some?
    ensures var dt, d := MergeUpdate(m, body).value.datetime, ParseDate(body.date.value).value;
      dt.year == d.year && dt.month == d.month && dt.day == d.day
      && dt.hour == m.datetime.hour && dt.minute == m.datetime.minute && dt.second == m.datetime.second
  {
  }

  /** A time-only update sets the parsed time of day and keeps the meal's date. */
  lemma TimeOnlyUpdateKeepsDate(m: Meal, body: MealBody)
    requires !Truthy(body.date) && Truthy(body.time) && ParseTime(body.time.value).Some?
    ensures MergeUpdate(m, body).Some?
    ensures var dt, t := MergeUpdate(m, body).value.datetime, ParseTime(body.time.value).value;
      dt.year == m.datetime.year && dt.month == m.datetime.month && dt.day == m.datetime.day
      && dt.hour == t.hour && dt.minute == t.minute && dt.second == t.second
  {
  }

  /**
    In this model, with its strict parse, updating both date and time
    succeeds exactly when creating a meal from the same two strings would,
    and stores the same date-time, whatever the meal held before.
   */
  lemma DateAndTimeUpdateMatchesCreate(m: Meal, body: MealBody)
    requires Truthy(body.date) && Truthy(body.time)
    ensures var created := ParseDateTime(body.date.value + " " + body.time.value);
      MergeUpdate(m, body).Some? == created.Some?
      && (created.Some? ==> MergeUpdate(m, body).value.datetime == created.value)
  {
    ParseDateTimeSplits(body.date.value, body.time.value);
    var pd, pt := ParseDate(body.date.value), ParseTime(body.time.value);
    if pd.Some? && pt.Some? {
      var dated := ReplaceDate(m.datetime, pd.value);
      assert ApplyDate(m.datetime, body.date) == Some(dated);
      assert ApplyTime(dated, body.time) == Some(ReplaceTime(dated, pt.value));
      assert ReplaceTime(dated, pt.value) == ReplaceTime(pd.value, pt.value);
    }
  }

  /** A body holding only "diet": false passes the no-data test yet changes nothing. */
  lemma DietFalseOnlyChangesNothing(m: Meal)
    ensures HasUpdateData(MealBody(None, None, None, None, Some(false)))
    ensures MergeUpdate(m, MealBody(None, None, None, None, Some(false))) == Some(m)
  {
  }

  /** An update can set the diet flag but never clear it. */
  lemma UpdateNeverClearsDiet(m: Meal, body: MealBody)
    requires MergeUpdate(m, body).Some?
    ensures MergeUpdate(m, body).value.diet == (m.diet || body.diet == Some(true))
  {
  }

  // ---------------------------------------------------------------------------
  // Reads

  /** A meal as the read handlers return it, with its date-time formatted. */
  datatype MealView = MealView(id: MealId, name: string, description: string, datetime: string, diet: bool)

  function View(m: Meal): MealView {
    MealView(m.id, m.name, m.description, FormatDateTime(m.datetime), m.diet)
  }

  /**
    The create handler's checks pass: name, description, date and time are
    non-empty, diet is not null, and date + " " + time parses.
   */
  predicate CanCreate(body: MealBody) {
    HasCreateData(body) && ParseDateTime(body.date.value + " " + body.time.value).Some?
  }

  /** The row the create handler adds for owner under id. */
  function NewMeal(id: MealId, body: MealBody, owner: UserId): (m: Meal)
    requires CanCreate(body)
    ensures m.id == id && m.idUser == owner && Complete(m) && Valid(m.datetime)
  {
    Meal(id, body.name.value, body.description.value,
         ParseDateTime(body.date.value + " " + body.time.value).value, body.diet.value, owner)
  }

  /**
    A meal created from body and then read back shows the submitted name,
    description and diet, and exactly the submitted date + " " + time,
    for years from 1000 on.
   */
  lemma CreatedMealReadsBack(id: MealId, body: MealBody, owner: UserId)
    requires CanCreate(body) && NewMeal(id, body, owner).datetime.year >= 1000
    ensures View(NewMeal(id, body, owner))
      == MealView(id, body.name.value, body.description.value, body.date.value + " " + body.time.value, body.diet.value)
  {
    ParseThenFormat(body.date.value + " " + body.time.value);
  }

  /**
    list is the meal list of user owner: the views of exactly the meals
    whose id_user is owner, in ascending id order.
   */
  predicate IsListing(list: seq<MealView>, meals: map<MealId, Meal>, owner: UserId) {
    && (forall i :: 0 <= i < |list| ==>
          list[i].id in meals && meals[list[i].id].idUser == owner && list[i] == View(meals[list[i].id]))
    && (forall i, j :: 0 <= i < j < |list| ==> list[i].id < list[j].id)
    && (forall id :: id in meals && meals[id].idUser == owner ==>
          exists i :: 0 <= i < |list| && list[i].id == id)
  }

  /**
    The state of the listing loop: list holds, in ascending id order, the
    views of the user's meals not in todo, and every id in todo is a meal
    of the user larger than every id listed.
   */
  predicate PartialListing(list: seq<MealView>, todo: set<MealId>, meals: map<MealId, Meal>, owner: UserId) {
    && (forall id :: id in todo ==> id in meals && meals[id].idUser == owner)
    && (forall i :: 0 <= i < |list| ==>
          list[i].id in meals && meals[list[i].id].idUser == owner && list[i] == View(meals[list[i].id]))
    && (forall i, j :: 0 <= i < j < |list| ==> list[i].id < list[j].id)
    && (forall i, id :: 0 <= i < |list| && id in todo ==> list[i].id < id)
    && (forall id :: id in meals && meals[id].idUser == owner && id !in todo ==>
          exists i :: 0 <= i < |list| && list[i].id == id)
  }

  /** Listing starts from all of the user's meals and ends when none is left. */
  lemma PartialListingBounds(list: seq<MealView>, todo: set<MealId>, meals: map<MealId, Meal>, owner: UserId)
    ensures todo == (set id | id in meals && meals[id].idUser == owner) ==> PartialListing([], todo, meals, owner)
    ensures PartialListing(list, {}, meals, owner) ==> IsListing(list, meals, owner)
  {
  }

  /** Appending the view of the least id left extends the listing. */
  lemma ListingStep(list: seq<MealView>, todo: set<MealId>, meals: map<MealId, Meal>, owner: UserId, next: MealId)
    requires PartialListing(list, todo, meals, owner)
    requires forall id :: id in meals ==> meals[id].id == id
    requires next in todo && forall id :: id in todo ==> next <= id
    ensures PartialListing(list + [View(meals[next])], todo - {next}, meals, owner)
  {
    var list' := list + [View(meals[next])];
    assert list'[|list|].id == next;
    forall i | 0 <= i < |list'|
      ensures list'[i].id in meals && meals[list'[i].id].idUser == owner && list'[i] == View(meals[list'[i].id])
    {
      if i < |list| {
        assert list'[i] == list[i];
      }
    }
    forall i, j | 0 <= i < j < |list'|
      ensures list'[i].id < list'[j].id
    {
      assert list'[i] == list[i];
      if j < |list| {
        assert list'[j] == list[j];
      }
    }
    forall i, id | 0 <= i < |list'| && id in todo - {next}
      ensures list'[i].id < id
    {
      if i < |list| {
        assert list'[i] == list[i];
      }
    }
    forall id | id in meals && meals[id].idUser == owner && id !in todo - {next}
      ensures exists i :: 0 <= i < |list'| && list'[i].id == id
    {
      if id == next {
        assert list'[|list|].id == id;
      } else {
        var i :| 0 <= i < |list| && list[i].id == id;
        assert list'[i].id == id;
      }
    }
  }

  predicate StrictlyIncreasing(xs: seq<nat>) {
    forall i, j :: 0 <= i < j < |xs| ==> xs[i] < xs[j]
  }

  /** Two ascending sequences with the same elements are the same sequence. */
  lemma {:induction false} IncreasingSameElements(xs: seq<nat>, ys: seq<nat>)
    requires StrictlyIncreasing(xs) && StrictlyIncreasing(ys)
    requires forall k :: k in xs <==> k in ys
    ensures xs == ys
    decreases |xs|
  {
    if xs == [] {
      NoElements(ys);
    } else {
      assert xs[0] in ys;
      assert ys != [];
      assert ys[0] in xs;
      assert xs[0] == ys[0];
      forall k ensures k in xs[1..] <==> k in ys[1..] {
        assert k in xs[1..] <==> k in xs && k != xs[0];
        assert k in ys[1..] <==> k in ys && k != ys[0];
      }
      IncreasingSameElements(xs[1..], ys[1..]);
      assert xs == [xs[0]] + xs[1..] && ys == [ys[0]] + ys[1..];
    }
  }

  lemma NoElements(ys: seq<nat>)
    requires forall k :: k !in ys
    ensures ys == []
  {
    if ys != [] {
      HeadIsElement(ys);
      assert false;
    }
  }

  lemma HeadIsElement(ys: seq<nat>)
    requires ys != []
    ensures ys[0] in ys
  {
  }

  function IdsOf(list: seq<MealView>): (ids: seq<MealId>)
    ensures |ids| == |list| && forall i :: 0 <= i < |list| ==> ids[i] == list[i].id
  {
    if list == [] then [] else [list[0].id] + IdsOf(list[1..])
  }

  /** The ids a listing shows are exactly the ids of the user's meals, ascending. */
  lemma ListedIds(list: seq<MealView>, meals: map<MealId, Meal>, owner: UserId)
    requires IsListing(list, meals, owner)
    ensures StrictlyIncreasing(IdsOf(list))
    ensures forall k :: k in IdsOf(list) <==> k in meals && meals[k].idUser == owner
  {
    var ids := IdsOf(list);
    forall k ensures k in ids <==> k in meals && meals[k].idUser == owner {
      if k in ids {
        var i :| 0 <= i < |ids| && ids[i] == k;
        assert list[i].id == k;
      }
      if k in meals && meals[k].idUser == owner {
        var i :| 0 <= i < |list| && list[i].id == k;
        assert ids[i] == k;
      }
    }
  }

  /** The meal list of a user is determined by the store: there is only one. */
  lemma ListingUnique(a: seq<MealView>, b: seq<MealView>, meals: map<MealId, Meal>, owner: UserId)
    requires IsListing(a, meals, owner) && IsListing(b, meals, owner)
    ensures a == b
  {
    ListedIds(a, meals, owner);
    ListedIds(b, meals, owner);
    var xa, xb := IdsOf(a), IdsOf(b);
    IncreasingSameElements(xa, xb);
    forall i | 0 <= i < |a| ensures a[i] == b[i] {
      assert xa[i] == xb[i];
    }
  }
}
