/**
 * The Express routes of the server over in-memory tables: `users`, `recipes`
 * (the favorites, each owned by one user) and `ingredients`, each with an
 * auto-increment id that is never reused. Every route is one method of
 * `Store` that answers with a status code and a body.
 */
module Server {
  import opened Wrappers
  import opened Strings
  import opened Seqs
  import opened Api
  import opened Requests

  function UserKey(u: User): int { u.id }
  function RecipeKey(x: Recipe): int { x.id }
  function IngredientKey(i: Ingredient): int { i.id }

  /** `db('users').where({ email }).first()`: the first user whose email is exactly `email`. */
  function FindUser(users: seq<User>, email: string): (found: Option<User>)
    ensures found.Some? ==> found.value in users && found.value.email == email
    ensures found.None? <==> forall k :: 0 <= k < |users| ==> users[k].email != email
    ensures found.Some? ==>
      exists k :: 0 <= k < |users| && users[k] == found.value && (forall j :: 0 <= j < k ==> users[j].email != email)
  {
    if |users| == 0 then None
    else if users[0].email == email then Some(users[0])
    else FindUser(users[1..], email)
  }

  ghost predicate EmailsUnique(users: seq<User>)
  {
    forall i, j :: 0 <= i < j < |users| ==> users[i].email != users[j].email
  }

  /** With unique emails, looking a user up by their email finds that very user. */
  lemma {:induction false} FindUserUnique(users: seq<User>, u: User)
    requires EmailsUnique(users)
    requires u in users
    ensures FindUser(users, u.email) == Some(u)
  {
    if users[0] != u {
      assert users[0].email != u.email by {
        var k :| 0 <= k < |users| && users[k] == u;
        assert k != 0;
      }
      assert u in users[1..];
      FindUserUnique(users[1..], u);
    }
  }

  /** `where({ user_id })`: the rows a user owns. */
  function OwnedBy(userId: nat): Recipe -> bool
  {
    (x: Recipe) => x.userId == userId
  }

  /** The rows `where({ id, user_id }).del()` leaves in place. */
  function NotMatching(id: int, userId: nat): Recipe -> bool
  {
    (x: Recipe) => !(x.id == id && x.userId == userId)
  }

  /** Some row has this id and belongs to this user. */
  predicate Matches(rows: seq<Recipe>, id: int, userId: nat)
  {
    exists k :: 0 <= k < |rows| && rows[k].id == id && rows[k].userId == userId
  }

  /** After a delete by id and owner, no row matches them. */
  lemma DeletedNoneLeft(rows: seq<Recipe>, id: int, userId: nat)
    ensures !Matches(Filter(rows, NotMatching(id, userId)), id, userId)
  {
    var r := Filter(rows, NotMatching(id, userId));
    forall k | 0 <= k < |r| ensures NotMatching(id, userId)(r[k]) { }
  }

  /** A row matches a non-empty table iff its first row matches or a later one does. */
  lemma MatchesFirstOrRest(rows: seq<Recipe>, id: int, userId: nat)
    requires |rows| > 0
    ensures Matches(rows, id, userId) <==>
      (rows[0].id == id && rows[0].userId == userId) || Matches(rows[1..], id, userId)
  {
    if Matches(rows, id, userId) {
      var k :| 0 <= k < |rows| && rows[k].id == id && rows[k].userId == userId;
      if k > 0 {
        assert rows[1..][k - 1] == rows[k];
      }
    }
    if Matches(rows[1..], id, userId) {
      var k :| 0 <= k < |rows[1..]| && rows[1..][k].id == id && rows[1..][k].userId == userId;
      assert rows[k + 1] == rows[1..][k];
    }
  }

  /** Ids being increasing, no row after the first carries the first row's id. */
  lemma LaterIdsDiffer(rows: seq<Recipe>, id: int, userId: nat)
    requires Increasing(rows, RecipeKey)
    requires |rows| > 0 && rows[0].id == id
    ensures Filter(rows[1..], NotMatching(id, userId)) == rows[1..]
  {
    var tail := rows[1..];
    forall k | 0 <= k < |tail| ensures NotMatching(id, userId)(tail[k]) {
      assert RecipeKey(rows[0]) < RecipeKey(rows[k + 1]);
    }
    FilterKeepsAll(tail, NotMatching(id, userId));
  }

  /**
   * Because ids are strictly increasing, a delete by id and owner removes
   * exactly one row when one matches and none otherwise; afterwards no row
   * matches.
   */
  lemma {:induction false} DeleteRemovesOne(rows: seq<Recipe>, id: int, userId: nat)
    requires Increasing(rows, RecipeKey)
    ensures |rows| - |Filter(rows, NotMatching(id, userId))| == (if Matches(rows, id, userId) then 1 else 0)
    ensures !Matches(Filter(rows, NotMatching(id, userId)), id, userId)
  {
    DeletedNoneLeft(rows, id, userId);
    if |rows| > 0 {
      var keep := NotMatching(id, userId);
      var tail := rows[1..];
      MatchesFirstOrRest(rows, id, userId);
      if !keep(rows[0]) {
        LaterIdsDiffer(rows, id, userId);
      } else {
        assert Increasing(tail, RecipeKey);
        DeleteRemovesOne(tail, id, userId);
      }
    }
  }

  predicate HasIngredient(rows: seq<Ingredient>, name: string)
  {
    exists k :: 0 <= k < |rows| && rows[k].name == name
  }

  /** The `users` table: ids increasing below the counter, emails unique. */
  ghost predicate UsersValid(users: seq<User>, next: nat)
  {
    && Increasing(users, UserKey)
    && (forall k :: 0 <= k < |users| ==> users[k].id < next)
    && EmailsUnique(users)
  }

  /** The `recipes` table: ids increasing below the counter. */
  ghost predicate RecipesValid(recipes: seq<Recipe>, next: nat)
  {
    && Increasing(recipes, RecipeKey)
    && (forall k :: 0 <= k < |recipes| ==> recipes[k].id < next)
  }

  /** The `ingredients` table: ids increasing below the counter, names unique, non-empty and trimmed. */
  ghost predicate IngredientsValid(ingredients: seq<Ingredient>, next: nat)
  {
    && Increasing(ingredients, IngredientKey)
    && (forall k :: 0 <= k < |ingredients| ==> ingredients[k].id < next)
    && (forall i, j :: 0 <= i < j < |ingredients| ==> ingredients[i].name != ingredients[j].name)
    && (forall k :: 0 <= k < |ingredients| ==> ingredients[k].name != "" && Trimmed(ingredients[k].name))
  }

  /** Inserting a user under the counter's id with an email not yet stored keeps the table valid. */
  lemma UsersAppend(users: seq<User>, next: nat, email: string, passwordHash: string)
    requires UsersValid(users, next)
    requires forall k :: 0 <= k < |users| ==> users[k].email != email
    ensures UsersValid(users + [User(next, email, passwordHash)], next + 1)
  {
  }

  /** Inserting a recipe under the counter's id keeps the table valid. */
  lemma RecipesAppend(recipes: seq<Recipe>, next: nat, row: Recipe)
    requires RecipesValid(recipes, next) && row.id == next
    ensures RecipesValid(recipes + [row], next + 1)
  {
  }

  /** Inserting a new, non-empty, trimmed name under the counter's id keeps the table valid. */
  lemma IngredientsAppend(ingredients: seq<Ingredient>, next: nat, name: string)
    requires IngredientsValid(ingredients, next)
    requires !HasIngredient(ingredients, name)
    requires name != "" && Trimmed(name)
    ensures IngredientsValid(ingredients + [Ingredient(next, name)], next + 1)
  {
    var rows := ingredients + [Ingredient(next, name)];
    forall i, j | 0 <= i < j < |rows| ensures rows[i].name != rows[j].name {
      if j == |ingredients| {
        assert rows[i] == ingredients[i];
      }
    }
  }

  class Store {
    const jwt: Jwt
    const hasher: Hasher
    var users: seq<User>
    var recipes: seq<Recipe>
    var ingredients: seq<Ingredient>
    var nextUserId: nat
    var nextRecipeId: nat
    var nextIngredientId: nat

    /**
     * Ids are issued in increasing order below each table's counter, emails
     * are unique (the register route checks before inserting), ingredient
     * names are unique (the column's constraint) and stored trimmed.
     */
    ghost predicate Valid()
      reads this
    {
      && JwtLaws(jwt) && HasherLaws(hasher)
      && UsersValid(users, nextUserId)
      && RecipesValid(recipes, nextRecipeId)
      && IngredientsValid(ingredients, nextIngredientId)
    }

    /** Empty tables whose first row gets id 1. */
    constructor (jwt: Jwt, hasher: Hasher)
      requires JwtLaws(jwt) && HasherLaws(hasher)
      ensures Valid()
      ensures this.jwt == jwt && this.hasher == hasher
      ensures users == [] && recipes == [] && ingredients == []
      ensures nextUserId == 1 && nextRecipeId == 1 && nextIngredientId == 1
    {
      this.jwt, this.hasher := jwt, hasher;
      users, recipes, ingredients := [], [], [];
      nextUserId, nextRecipeId, nextIngredientId := 1, 1, 1;
    }

    /** POST /api/ingredients */
    method PostIngredient(name: Option<string>) returns (r: Response)
      requires Valid()
      modifies this`ingredients, this`nextIngredientId
      ensures Valid()
      ensures !Truthy(name) || AllSpace(name.value) ==>
        r == Error(BAD_REQUEST, IngredientNameRequired) && ingredients == old(ingredients) && nextIngredientId == old(nextIngredientId)
      ensures Truthy(name) && !AllSpace(name.value) && HasIngredient(old(ingredients), Trim(name.value)) ==>
        r == Error(CONFLICT, IngredientExists) && ingredients == old(ingredients) && nextIngredientId == old(nextIngredientId)
      ensures Truthy(name) && !AllSpace(name.value) && !HasIngredient(old(ingredients), Trim(name.value)) ==>
        var row := Ingredient(old(nextIngredientId), Trim(name.value));
        && r == Response(CREATED, IngredientRow(row))
        && ingredients == old(ingredients) + [row]
        && nextIngredientId == old(nextIngredientId) + 1
    {
      if !Truthy(name) {
        return Error(BAD_REQUEST, IngredientNameRequired);
      }
      TrimEmptyIff(name.value);
      var trimmed := Trim(name.value);
      if trimmed == "" {
        return Error(BAD_REQUEST, IngredientNameRequired);
      }
      if HasIngredient(ingredients, trimmed) {
        // the unique constraint on `name` fails the insert
        return Error(CONFLICT, IngredientExists);
      }
      IngredientsAppend(ingredients, nextIngredientId, trimmed);
      var row := Ingredient(nextIngredientId, trimmed);
      ingredients := ingredients + [row];
      nextIngredientId := nextIngredientId + 1;
      r := Response(CREATED, IngredientRow(row));
    }

    /** GET /api/ingredients: every row, in insertion order. */
    method GetIngredients() returns (r: Response)
      ensures r.status == OK && r.body == IngredientRows(ingredients)
    {
      r := Response(OK, IngredientRows(ingredients));
    }

    /** POST /api/favorites: saves a favorite for the caller; there is no duplicate check. */
    method PostFavorite(authorization: Option<string>, title: Option<string>, image: Option<string>, link: Option<string>)
      returns (r: Response)
      requires Valid()
      modifies this`recipes, this`nextRecipeId
      ensures Valid()
      ensures Authenticate(jwt, authorization).Failure? ==>
        && r == Error(UNAUTHORIZED, Authenticate(jwt, authorization).error)
        && recipes == old(recipes) && nextRecipeId == old(nextRecipeId)
      ensures Authenticate(jwt, authorization).Success? && !Truthy(title) ==>
        r == Error(BAD_REQUEST, TitleRequired) && recipes == old(recipes) && nextRecipeId == old(nextRecipeId)
      ensures Authenticate(jwt, authorization).Success? && Truthy(title) ==>
        var row := Recipe(old(nextRecipeId), title.value, image, link, Authenticate(jwt, authorization).value.id);
        && (forall k :: 0 <= k < |old(recipes)| ==> old(recipes)[k].id < row.id)
        && recipes == old(recipes) + [row]
        && nextRecipeId == old(nextRecipeId) + 1
        && r == Response(CREATED, SavedRecipe(row.id, title.value, image, link))
    {
      var auth := Authenticate(jwt, authorization);
      if auth.Failure? {
        return Error(UNAUTHORIZED, auth.error);
      }
      var user := auth.value;
      if !Truthy(title) {
        return Error(BAD_REQUEST, TitleRequired);
      }
      var row := Recipe(nextRecipeId, title.value, image, link, user.id);
      RecipesAppend(recipes, nextRecipeId, row);
      recipes := recipes + [row];
      nextRecipeId := nextRecipeId + 1;
      r := Response(CREATED, SavedRecipe(row.id, row.title, row.image, row.link));
    }

    /** GET /api/favorites: exactly the caller's rows, in insertion order. */
    method GetFavorites(authorization: Option<string>) returns (r: Response)
      ensures Authenticate(jwt, authorization).Failure? ==>
        r == Error(UNAUTHORIZED, Authenticate(jwt, authorization).error)
      ensures Authenticate(jwt, authorization).Success? ==>
        var caller := Authenticate(jwt, authorization).value;
        && r.status == OK && r.body.RecipeRows?
        && r.body.recipes == Filter(recipes, OwnedBy(caller.id))
        && (forall x :: x in r.body.recipes <==> x in recipes && x.userId == caller.id)
    {
      var auth := Authenticate(jwt, authorization);
      if auth.Failure? {
        return Error(UNAUTHORIZED, auth.error);
      }
      var rows := Filter(recipes, OwnedBy(auth.value.id));
      r := Response(OK, RecipeRows(rows));
    }

    /**
     * DELETE /api/favorites/:id: removes the row with this id only when the
     * caller owns it; a row that is absent and a row owned by someone else
     * both give 404.
     */
    method DeleteFavorite(authorization: Option<string>, id: int) returns (r: Response)
      requires Valid()
      modifies this`recipes
      ensures Valid()
      ensures Authenticate(jwt, authorization).Failure? ==>
        r == Error(UNAUTHORIZED, Authenticate(jwt, authorization).error) && recipes == old(recipes)
      ensures Authenticate(jwt, authorization).Success? ==>
        var caller := Authenticate(jwt, authorization).value;
        && recipes == Filter(old(recipes), NotMatching(id, caller.id))
        && (forall x :: x in recipes <==> x in old(recipes) && !(x.id == id && x.userId == caller.id))
        && |old(recipes)| - |recipes| == (if Matches(old(recipes), id, caller.id) then 1 else 0)
        && !Matches(recipes, id, caller.id)
        && r == (if Matches(old(recipes), id, caller.id) then Response(OK, Msg(RecipeDeleted))
                 else Error(NOT_FOUND, RecipeNotFound))
    {
      var auth := Authenticate(jwt, authorization);
      if auth.Failure? {
        return Error(UNAUTHORIZED, auth.error);
      }
      var user := auth.value;
      var remaining := Filter(recipes, NotMatching(id, user.id));
      DeleteRemovesOne(recipes, id, user.id);
      FilterIncreasing(recipes, NotMatching(id, user.id), RecipeKey);
      var deleted := |recipes| - |remaining|;
      recipes := remaining;
      if deleted > 0 {
        r := Response(OK, Msg(RecipeDeleted));
      } else {
        r := Error(NOT_FOUND, RecipeNotFound);
      }
    }

    /** POST /api/auth/register: a new user with the hash of the password, and a token for them. */
    method Register(email: Option<string>, password: Option<string>) returns (r: Response)
      requires Valid()
      modifies this`users, this`nextUserId
      ensures Valid()
      ensures !Truthy(email) || !Truthy(password) ==>
        r == Error(BAD_REQUEST, CredentialsRequired(Sr)) && users == old(users) && nextUserId == old(nextUserId)
      ensures Truthy(email) && Truthy(password) && (exists k :: 0 <= k < |old(users)| && old(users)[k].email == email.value) ==>
        r == Error(CONFLICT, EmailTaken) && users == old(users) && nextUserId == old(nextUserId)
      ensures Truthy(email) && Truthy(password) && (forall k :: 0 <= k < |old(users)| ==> old(users)[k].email != email.value) ==>
        var me := Identity(old(nextUserId), email.value);
        && users == old(users) + [User(me.id, email.value, hasher.hash(password.value))]
        && nextUserId == old(nextUserId) + 1
        && r == Response(CREATED, Session(jwt.sign(me), me))
    {
      if !Truthy(email) || !Truthy(password) {
        return Error(BAD_REQUEST, CredentialsRequired(Sr));
      }
      var existing := FindUser(users, email.value);
      if existing.Some? {
        return Error(CONFLICT, EmailTaken);
      }
      var passwordHash := hasher.hash(password.value);
      var id := nextUserId;
      UsersAppend(users, id, email.value, passwordHash);
      users := users + [User(id, email.value, passwordHash)];
      nextUserId := nextUserId + 1;
      var me := Identity(id, email.value);
      r := Response(CREATED, Session(jwt.sign(me), me));
    }

    /**
     * POST /api/auth/login: succeeds exactly when some user has this email and
     * the password matches their hash; an unknown email and a wrong password
     * get the same 401 answer.
     */
    method Login(email: Option<string>, password: Option<string>, acceptLanguage: Option<string>) returns (r: Response)
      requires Valid()
      ensures r.status == OK <==>
        && Truthy(email) && Truthy(password)
        && exists u :: u in users && u.email == email.value && hasher.compare(password.value, u.passwordHash)
      ensures forall u :: u in users && Truthy(email) && Truthy(password) && u.email == email.value
                          && hasher.compare(password.value, u.passwordHash) ==>
        r == Response(OK, Session(jwt.sign(Identity(u.id, u.email)), Identity(u.id, u.email)))
      ensures r.status != OK ==>
        if Truthy(email) && Truthy(password) then r == Error(UNAUTHORIZED, WrongCredentials(AcceptLang(acceptLanguage)))
        else r == Error(BAD_REQUEST, CredentialsRequired(AcceptLang(acceptLanguage)))
    {
      var lang := AcceptLang(acceptLanguage);
      if !Truthy(email) || !Truthy(password) {
        return Error(BAD_REQUEST, CredentialsRequired(lang));
      }
      var found := FindUser(users, email.value);
      if found.None? {
        return Error(UNAUTHORIZED, WrongCredentials(lang));
      }
      var user := found.value;
      forall u | u in users && u.email == email.value ensures u == user {
        FindUserUnique(users, u);
      }
      var valid := hasher.compare(password.value, user.passwordHash);
      if !valid {
        return Error(UNAUTHORIZED, WrongCredentials(lang));
      }
      var me := Identity(user.id, user.email);
      r := Response(OK, Session(jwt.sign(me), me));
    }

    /**
     * Registering a fresh email and then logging in with the same password
     * answers with the same user, and registering that email again conflicts.
     */
    method RegisterThenLogin(email: string, password: string, acceptLanguage: Option<string>)
      returns (registered: Response, loggedIn: Response, again: Response)
      requires Valid()
      requires email != "" && password != ""
      requires forall k :: 0 <= k < |users| ==> users[k].email != email
      modifies this`users, this`nextUserId
      ensures registered.status == CREATED && loggedIn.status == OK
      ensures registered.body.Session? && loggedIn.body.Session?
      ensures loggedIn.body.user == registered.body.user == Identity(old(nextUserId), email)
      ensures again == Error(CONFLICT, EmailTaken)
    {
      registered := Register(Some(email), Some(password));
      var me := User(old(nextUserId), email, hasher.hash(password));
      assert users[|users| - 1] == me;
      loggedIn := Login(Some(email), Some(password), acceptLanguage);
      again := Register(Some(email), Some(password));
    }

    /** Deleting the same favorite twice: the second answer is 404. */
    method DeleteTwice(authorization: Option<string>, id: int) returns (first: Response, second: Response)
      requires Valid()
      modifies this`recipes
      ensures Authenticate(jwt, authorization).Success? ==>
        && first.status == (if Matches(old(recipes), id, Authenticate(jwt, authorization).value.id) then OK else NOT_FOUND)
        && second == Error(NOT_FOUND, RecipeNotFound)
    {
      first := DeleteFavorite(authorization, id);
      second := DeleteFavorite(authorization, id);
    }
  }
}
