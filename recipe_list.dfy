/**
 * The recipe list: the Spoonacular page link each recipe shows and saves,
 * and what `saveFavorite` does with a recipe.
 */
module RecipeList {
  import opened Wrappers
  import opened Strings
  import opened Api
  import opened Requests

  /** A recipe as the search route returns it; only these fields reach the link and the save. */
  datatype RecipeSummary = RecipeSummary(id: nat, title: string, image: Option<string>)

  const LinkPrefix: string := "https://spoonacular.com/recipes/"

  /** `title.toLowerCase().replace(/ /g, "-")` */
  function Slug(title: string): (slug: string)
    ensures |slug| == |title|
  {
    ReplaceAll(ToLower(title), ' ', '-')
  }

  /**
   * The slug has the title's length and no space: each space became `-`,
   * every other character (other white space included) is only lowered.
   */
  lemma SlugShape(title: string)
    ensures |Slug(title)| == |title|
    ensures ' ' !in Slug(title)
    ensures forall k :: 0 <= k < |title| ==>
      Slug(title)[k] == (if title[k] == ' ' then '-' else LowerChar(title[k]))
  {
    var slug := Slug(title);
    forall k | 0 <= k < |slug| ensures slug[k] != ' ' {
      assert LowerChar(title[k]) == ' ' ==> title[k] == ' ';
    }
  }

  /** `https://spoonacular.com/recipes/${slug}-${recipe.id}` */
  function RecipeLink(recipe: RecipeSummary): (link: string)
    ensures LinkPrefix <= link
    ensures |link| == |LinkPrefix| + |recipe.title| + 1 + |NatToString(recipe.id)|
    ensures link[|LinkPrefix|..|LinkPrefix| + |recipe.title|] == Slug(recipe.title)
    ensures link[|LinkPrefix| + |recipe.title|..] == ['-'] + NatToString(recipe.id)
  {
    LinkPrefix + Slug(recipe.title) + "-" + NatToString(recipe.id)
  }

  /** The recipe id as it stands after the last `-` of a link, when that part is a number. */
  function LinkedId(link: string): (id: Option<nat>)
  {
    var parts := Split(link, '-');
    var last := parts[|parts| - 1];
    if last != "" && forall k :: 0 <= k < |last| ==> IsDigit(last[k]) then Some(DigitsValue(last)) else None
  }

  /** The id a link was built from can be read back from its end. */
  lemma LinkedIdOfRecipeLink(recipe: RecipeSummary)
    ensures LinkedId(RecipeLink(recipe)) == Some(recipe.id)
  {
    var digits := NatToString(recipe.id);
    var front := LinkPrefix + Slug(recipe.title);
    assert RecipeLink(recipe) == front + ['-'] + digits;
    assert '-' !in digits by {
      forall k | 0 <= k < |digits| ensures digits[k] != '-' {
        assert IsDigit(digits[k]);
      }
    }
    SplitAround(front, digits, '-');
    SplitFree(digits, '-');
    DigitsValueOfNatToString(recipe.id);
  }

  /** What `saveFavorite` does: send the user to the login page, or post the favorite. */
  datatype SaveAction =
    | RedirectToLogin
    | PostFavorite(authorization: string, acceptLanguage: string, title: string, image: Option<string>, link: string)

  /**
   * `saveFavorite(recipe)`: without a user or a token nothing is posted;
   * otherwise the body carries the title and image unchanged and the same
   * link the list shows.
   */
  function SaveFavorite(user: Option<Identity>, token: string, language: string, recipe: RecipeSummary): (action: SaveAction)
    ensures action.RedirectToLogin? <==> user.None? || token == ""
    ensures action.PostFavorite? ==>
      && action.title == recipe.title && action.image == recipe.image
      && action.link == RecipeLink(recipe)
      && action.authorization == BearerPrefix + token
      && action.acceptLanguage == language
  {
    if user.None? || token == "" then RedirectToLogin
    else PostFavorite("Bearer " + token, language, recipe.title, recipe.image, RecipeLink(recipe))
  }

  /**
   * A save made with a token the server signed passes its authentication as
   * the signed user, and its title passes the route's check exactly when the
   * recipe has a title.
   */
  lemma SaveIsAuthenticated(jwt: Jwt, claims: Identity, language: string, recipe: RecipeSummary)
    requires JwtLaws(jwt)
    ensures var action := SaveFavorite(Some(claims), jwt.sign(claims), language, recipe);
      && action.PostFavorite?
      && Authenticate(jwt, Some(action.authorization)) == Success(claims)
      && Truthy(Some(action.title)) == (recipe.title != "")
  {
    AuthenticateSigned(jwt, claims);
  }
}
