/**
 * The HTTP surface of the server: the rows of its three tables, the claims a
 * session token carries, and each route's answer as a status code and a body.
 */
module Api {
  import opened Wrappers

  /** The two languages the login route answers in. */
  datatype Lang = Sr | En

  /** `{ id, email }`: the claims of a session token and the `user` object of an auth answer. */
  datatype Identity = Identity(id: nat, email: string)

  /** A row of `users`. */
  datatype User = User(id: nat, email: string, passwordHash: string)

  /** A row of `recipes`: a favorite owned by the user `userId`. */
  datatype Recipe = Recipe(id: nat, title: string, image: Option<string>, link: Option<string>, userId: nat)

  /** A row of `ingredients`. */
  datatype Ingredient = Ingredient(id: nat, name: string)

  /** The `message` of an answer; the login route localises some of them. */
  datatype Message =
    | NotAuthorized              // no `Bearer ` authorization header
    | InvalidToken               // the token does not verify
    | TitleRequired
    | RecipeDeleted
    | RecipeNotFound
    | CredentialsRequired(lang: Lang)
    | EmailTaken
    | WrongCredentials(lang: Lang)
    | IngredientNameRequired
    | IngredientExists

  datatype Payload =
    | Msg(message: Message)
    | SavedRecipe(id: nat, title: string, image: Option<string>, link: Option<string>)
    | RecipeRows(recipes: seq<Recipe>)
    | Session(token: string, user: Identity)
    | IngredientRow(ingredient: Ingredient)
    | IngredientRows(ingredients: seq<Ingredient>)

  datatype Response = Response(status: nat, body: Payload)

  const OK: nat := 200
  const CREATED: nat := 201
  const BAD_REQUEST: nat := 400
  const UNAUTHORIZED: nat := 401
  const NOT_FOUND: nat := 404
  const CONFLICT: nat := 409

  function Error(status: nat, message: Message): Response
  {
    Response(status, Msg(message))
  }
}
