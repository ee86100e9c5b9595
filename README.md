# Fridge Recipe Finder — a Dafny model of its favorites and credential store

This project models the parts of Fridge Recipe Finder that have state and rules.

- **The Express server** (`server/app.js`) is a sequential, in-memory state machine. It holds three tables with auto-increment ids: `users`, `recipes` (the saved favorites) and `ingredients`. Each route is one method of `Server.Store` and answers with a status code and a body:
  - register and login;
  - save, list and delete favorites, scoped to their owner;
  - add and list ingredients.

  `authMiddleware` is the pure function `Requests.Authenticate`. It takes the bearer token from the `Authorization` header and verifies it. The login route's language comes from `Accept-Language` through `Requests.AcceptLang`.
- **The ingredient chip list** (`IngredientInput.jsx`) is the class `IngredientInput.ChipInput`. It holds the typed text and the list of chips.
- **The recipe list** (`RecipeList.jsx`) has two pure pieces:
  - the Spoonacular link, a lowercased slug with spaces turned into hyphens followed by the recipe id;
  - what `saveFavorite` posts.
- **The language context** (`LanguageContext.js`) has two parts:
  - the translation lookup, which falls back to Serbian and then to the key itself;
  - the `LanguageProvider`, whose current language is persisted in `localStorage`.

bcrypt and jsonwebtoken are libraries, so they enter as values: `Requests.Hasher` and `Requests.Jwt`. Their laws are stated, not proved: a password matches its own hash, and a signed token verifies to its claims and is non-empty and space-free, and the empty token is rejected. `Server.Store`'s constructor requires these laws. The translation tables and `localStorage` are parameters.

Decisions the source leaves open:

- Email uniqueness is an exact string match, as the lookup `where({ email })` does it; there is no case folding.
- Favorites have no duplicate rule. The route's `SQLITE_CONSTRAINT` → 409 "Recipe already saved" branch (server/app.js:135-137) shows that rejecting duplicates was intended. But the migrations put no unique constraint on `recipes`, and the model follows the code: saving the same recipe twice adds two rows.
- Ids of `ingredients` and `recipes` are SQLite `AUTOINCREMENT` ids (knex `increments`). They start at 1, increase with insertion order and are never reused. SQLite promises increasing ids, not consecutive ones. The model chooses to leave the counter unchanged after a rejected insert, such as `Server.Store.PostIngredient`'s 409. No migration creates `users`, so its schema is not part of this model; its ids are modelled the same way.
- `toLowerCase` is modelled on ASCII letters only, so a slug always has its title's length.
- A request body field, a header or a stored value is JavaScript-truthy (`Requests.Truthy`) when it is present and not `""`. A whitespace-only favorite title is therefore accepted.

## Model

| member | source | states |
|---|---|---|
| `Requests.BearerToken` | server/app.js:108-112 | a token exists iff the header is present and starts with `Bearer `; it is the text after that prefix up to the next space |
| `Requests.BearerTokenOfHeader` | server/app.js:108-112 | the header `Bearer ${t}` yields `t` back for every space-free `t` |
| `Requests.Authenticate` | server/app.js:107-120 | the caller's claims iff a bearer token is present and verifies, and they are the verified claims; otherwise 401 with "not authorized" (no bearer header) or "invalid token" |
| `Requests.AuthenticateSigned` | server/app.js:113-119 | a request carrying a token the server signed for `{id, email}` passes as exactly those claims |
| `Requests.EmptyBearerRejected` | server/app.js:111-118 | a header `Bearer ` followed by a second space yields the empty token, which is rejected with the invalid-token 401 |
| `Requests.AcceptLang` | server/app.js:197-198 | the login language from `Accept-Language`; an absent header gives Serbian (characterised fully by `Requests.AcceptLangEnIff`) |
| `Requests.AcceptLangEnIff` | server/app.js:197-198 | English iff the header starts with `en` followed by its end, `,` or `-`; any other header and no header give Serbian |
| `Server.FindUser` | server/app.js:179 | the user found is the first row with exactly the email looked up; none is found iff no user has it |
| `Server.FindUserUnique` | server/app.js:203 | with unique emails, the lookup by a user's email finds that very user |
| `Server.DeleteRemovesOne` | server/app.js:160-165 | with increasing ids, a delete by id and owner removes one row if one matches and none otherwise, and leaves no matching row |
| `Server.UsersAppend` | server/app.js:179-184 | inserting a user with the next id and an email not yet stored keeps ids increasing and emails unique |
| `Server.RecipesAppend` | server/app.js:132 | inserting a favorite with the next id keeps ids increasing and below the counter |
| `Server.IngredientsAppend` | server/app.js:78 | inserting a new, non-empty, trimmed name with the next id keeps names unique and ids increasing |
| `Server.Store.constructor` | server/data/migrations/20250725173812_create_ingredients_and_recipes.js:7-15 | empty tables whose counters start at 1, with the store invariant holding |
| `Server.Store.PostIngredient` | server/app.js:70-88 | missing or whitespace-only name gives 400; a trimmed name already stored gives 409 (unique column); otherwise one row with a fresh id and the trimmed name is appended and returned with 201; the other tables are untouched and the invariant (unique, trimmed, non-empty names) is kept |
| `Server.Store.GetIngredients` | server/app.js:91-99 | 200 with every ingredient row in insertion order |
| `Server.Store.PostFavorite` | server/app.js:123-141 | unauthenticated gives 401 and no change; a missing or empty title gives 400 and no change; otherwise exactly one row with a fresh id above all existing ids and `user_id` the caller's id is appended, with no duplicate check, and `{id, title, image, link}` is echoed with 201 |
| `Server.Store.GetFavorites` | server/app.js:144-153 | 401 when unauthenticated; otherwise 200 with exactly the caller's rows, all of them and no others, in table order. The method changes nothing, so two calls with no write between answer the same |
| `Server.Store.DeleteFavorite` | server/app.js:156-170 | 401 and no change when unauthenticated; otherwise removes exactly the rows with this id owned by the caller (one at most). Every other row stays. The answer is 200 iff such a row existed, else 404, whether the row is absent or owned by someone else |
| `Server.Store.Register` | server/app.js:173-191 | a missing field gives 400 and no change; an email already stored gives 409 and no change; otherwise one user with the next id and `hash(password)` is appended, and 201 carries a token signed for `{id, email}` and `{id, email}` without the hash. Emails stay unique |
| `Server.Store.Login` | server/app.js:194-217 | 200 iff both fields are given and some user with that email matches the password, answering with a token for that user's `{id, email}`; an unknown email and a wrong password give the identical 401 answer for the header's language; missing fields give 400 |
| `Server.Store.RegisterThenLogin` | server/app.js:173-217 | registering a fresh email and logging in with the same password answers with the same user id, and registering it again gives 409 |
| `Server.Store.DeleteTwice` | server/app.js:156-170 | deleting the same favorite twice: the first answer is 200 iff the caller owned a row with this id, and the second is always 404 |
| `Seqs.Filter` | client/src/components/IngredientInput.jsx:24 | the result holds exactly the elements the predicate accepts |
| `Seqs.FilterAppend` | client/src/components/IngredientInput.jsx:24 | filtering distributes over concatenation, so kept elements keep their order |
| `Seqs.FilterNoDuplicates` | client/src/components/IngredientInput.jsx:24 | filtering a duplicate-free list gives a duplicate-free list |
| `Seqs.FilterIncreasing` | server/app.js:160 | deleting rows keeps ids strictly increasing |
| `Strings.Trim` | server/app.js:73 | `trim()` is no longer than its input and has no white space at either end |
| `Strings.TrimStartIndex` | client/src/components/IngredientInput.jsx:11 | `trim()` starts at the first non-space; only white space precedes it |
| `Strings.TrimEndIndex` | client/src/components/IngredientInput.jsx:11 | `trim()` ends just after the last non-space; only white space follows it |
| `Strings.TrimSlice` | client/src/components/IngredientInput.jsx:11 | `trim()` is a slice of the input that only white space surrounds; with `Trim`'s own contract (no white space at either end) this fixes the slice |
| `Strings.TrimEmptyIff` | server/app.js:73 | `trim() === ''` iff the string is all white space |
| `Strings.TrimmedIff` | client/src/components/IngredientInput.jsx:11-12 | `trim()` leaves a string unchanged iff it has no white space at either end |
| `Strings.TrimIdempotent` | client/src/components/IngredientInput.jsx:11-12 | trimming a trimmed string changes nothing |
| `Strings.Split` | server/app.js:112 | `split` with a one-character separator always yields at least one part |
| `Strings.SplitPartsFree` | server/app.js:198 | no part of a split contains the separator |
| `Strings.JoinSplit` | server/app.js:198 | joining the parts of a split gives back the string |
| `Strings.SplitJoin` | server/app.js:112 | splitting a join of separator-free parts gives back the parts |
| `Strings.SplitHead` | server/app.js:198 | `split(sep)[0]` is the prefix before the first separator, or the whole string |
| `Strings.NatToString` | client/src/components/RecipeList.jsx:18 | `${id}` is a non-empty string of decimal digits with no leading zero |
| `Strings.DigitsValueOfNatToString` | client/src/components/RecipeList.jsx:18 | reading back the decimal rendering of `n` gives `n` |
| `IngredientInput.RemoveKeepsChipList` | client/src/components/IngredientInput.jsx:24 | removing an item keeps the list duplicate-free, with only non-empty, trimmed entries |
| `IngredientInput.AddKeepsChipList` | client/src/components/IngredientInput.jsx:11-12 | appending a non-empty, trimmed entry not yet listed keeps the list well formed |
| `IngredientInput.RemoveAbsent` | client/src/components/IngredientInput.jsx:24 | removing an item not in the list leaves it unchanged |
| `IngredientInput.ChipInput.constructor` | client/src/App.js:15-16 | nothing typed, no ingredients, invariant holds |
| `IngredientInput.ChipInput.SetInput` | client/src/components/IngredientInput.jsx:52 | the typed text becomes the field's value |
| `IngredientInput.ChipInput.AddDisabled` | client/src/components/IngredientInput.jsx:68 | the Add button is disabled iff the typed text is all white space, which is the first half of the add guard |
| `IngredientInput.ChipInput.AddIngredient` | client/src/components/IngredientInput.jsx:10-15 | appends `input.trim()` and clears the text iff it is non-empty and not yet listed; otherwise neither the list nor the text changes; the list stays duplicate-free with non-empty, trimmed entries |
| `IngredientInput.ChipInput.HandleKeyPress` | client/src/components/IngredientInput.jsx:17-21 | Enter performs the same add; any other key changes nothing |
| `IngredientInput.ChipInput.RemoveIngredient` | client/src/components/IngredientInput.jsx:23-25 | every entry equal to the item is dropped, the others stay in their order, and the invariant is kept |
| `IngredientInput.ChipInput.ClearAll` | client/src/components/IngredientInput.jsx:27-29 | the list becomes empty |
| `Strings.ToLower` | client/src/components/RecipeList.jsx:17 | `toLowerCase()` keeps the length, turns each ASCII capital into the lowercase letter at the same place in the alphabet (so none is left), and keeps every other character where it was |
| `Strings.ToLowerIdempotent` | client/src/components/RecipeList.jsx:17 | lowering a lowered string changes nothing |
| `Strings.ReplaceAll` | client/src/components/RecipeList.jsx:17 | `replace(/a/g, b)` keeps the length, puts `b` at every position that held `a` (so no `a` is left when `b` differs), and keeps every other character where it was |
| `RecipeList.Slug` | client/src/components/RecipeList.jsx:17 | the slug has the title's length |
| `RecipeList.SlugShape` | client/src/components/RecipeList.jsx:17 | the slug contains no space: each space became `-`, every other character (other white space included) is only lowercased |
| `RecipeList.RecipeLink` | client/src/components/RecipeList.jsx:18 | the link starts with `https://spoonacular.com/recipes/`, continues with the slug, and ends with `-` and the id's digits |
| `RecipeList.LinkedIdOfRecipeLink` | client/src/components/RecipeList.jsx:18 | the recipe id can be read back from the digits after the link's last `-` |
| `RecipeList.SaveFavorite` | client/src/components/RecipeList.jsx:11-31 | without a user or a token nothing is posted (redirect to login); otherwise the body carries the title and image unchanged and the same link the list displays, with a `Bearer` header and the current language |
| `RecipeList.SaveIsAuthenticated` | client/src/components/RecipeList.jsx:29-31 | a save made with a token the server signed passes the server's authentication as the signed user |
| `LanguageContext.Translate` | client/src/contexts/LanguageContext.js:27-32 | exactly the current table's non-empty entry when there is one; else exactly the Serbian non-empty entry; else the key when the Serbian table exists, and the thrown `TypeError` (`None`) when it does not; non-empty for a non-empty key |
| `LanguageContext.TranslateFallsBack` | client/src/contexts/LanguageContext.js:29-30 | a language that is unknown or lacks the key, or maps it to `""`, reads exactly the Serbian result |
| `LanguageContext.TranslateThrowsIff` | client/src/contexts/LanguageContext.js:29-30 | the lookup throws iff the current table lacks the key and there is no Serbian table; a key the current table holds is answered even then |
| `LanguageContext.InitialLanguage` | client/src/contexts/LanguageContext.js:7-9 | the stored `language` value when present and non-empty, else `sr`; never empty |
| `LanguageContext.LanguageProvider.constructor` | client/src/contexts/LanguageContext.js:6-9 | the provider starts at the stored language, else `sr` |
| `LanguageContext.LanguageProvider.ChangeLanguage` | client/src/contexts/LanguageContext.js:11-14 | sets the current language and stores it, so a fresh provider starts at it (for a non-empty language) |
| `LanguageContext.LanguageProvider.T` | client/src/contexts/LanguageContext.js:25-33 | the lookup `useTranslation` returns: the current language's entry when it has one, else exactly the Serbian result (which may be the thrown `TypeError`); non-empty for a non-empty key |

## Left out

- `GET /api/recipes` (server/app.js:21-67) is left out. It is a passthrough to the Spoonacular HTTP API with a concurrent fan-out of detail requests.
- bcrypt and jsonwebtoken internals are left out: salting, the work factor and signature cryptography. They enter as function values with stated laws. `bcrypt.hash` is modelled as deterministic, so the random salt is not. `jwt.sign` is modelled as a function of the claims alone. The real `sign` also embeds the `iat` and `exp` times from the clock (server/app.js:185, 211), so two signings of the same claims differ. `Server.Store.Login`'s promise of one exact token relies on this simplification.
- Token expiry (`expiresIn: '7d'`) is left out because it depends on the clock. `verify` either accepts or rejects a token.
- The 500 answers are left out, since the in-memory tables never fail. So is the `SQLITE_CONSTRAINT` → 409 branch of `POST /api/favorites` (server/app.js:135-137). `recipes` has no unique constraint, and its only other constraint is the `user_id REFERENCES users(id)` foreign key (server/data/migrations/20230728121000_add_userid_to_recipes.js:7). SQLite enforces foreign keys only when `PRAGMA foreign_keys` is on, and server/knexfile.js does not turn it on. The branch could fire only if foreign keys were enforced and the token's user had no row. No route deletes users, so the model treats the branch as unreachable.
- SQLite's `ON DELETE CASCADE` on `user_id` is left out, because no route deletes users.
- `Server.Store.DeleteFavorite` takes the `:id` path parameter as an integer. SQLite's conversion of the text parameter to an integer is not modelled.
- Request body fields are modelled as `Option<string>`: a field that is absent or a string. A JSON body may carry other values, and those are not modelled. `{"name": 5}` makes `name.trim()` throw at server/app.js:73, outside the `try`, so no answer is sent. `{"title": 1}` is truthy and would be saved.
- Recipe ids are `nat`, and `Strings.NatToString` renders them as decimal digits. `${recipe.id}` at client/src/components/RecipeList.jsx:18 renders a JavaScript number. That differs for negative or fractional ids and for ids of 1e21 and above, which JavaScript writes in exponent notation. These ids are not local rows: the list shows the results of `GET /api/recipes`, which passes on Spoonacular's search response. The model assumes Spoonacular's ids are non-negative integers below 1e21.
- `LanguageContext.Translate`'s thrown `TypeError` is modelled as `None`. The page then fails to render, and that is not modelled.
- `Strings.ToLower` maps only ASCII letters. JavaScript's full Unicode case mapping is not modelled, including mappings that change length.
- Request-level concurrency is left out. This includes the non-atomic check-then-insert in register: two concurrent registrations of one email could both pass the check.
- Localized message texts are left out. Each message is a constructor of `Api.Message`, and the login route's carry the language.
- The `translations` module is not part of this model; the tables are a parameter.
- `App.js`'s session handling (`handleAuth`, `handleLogout`), `LoginForm.jsx`, `FavoriteList.jsx` and the rendering and theme files are not part of this model.
