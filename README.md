# foodgram backend: a Dafny model of its core

foodgram is a recipe site. Users publish recipes with ingredients and tags, keep
favourites and a shopping list, follow other authors, and download a shopping list
that adds up the ingredients of every recipe in their cart. This project models the
logic under the Django/DRF glue of its backend, over in-memory tables held by one
`Store.Database` object:

- **Services**: `list_to_txt`, the shopping-list aggregation and its text rendering.
- **Mixins**: replacing a recipe's ingredient rows (`update_or_create_ingredient`) and the
  per-recipe membership test (`get_chosen_recipe`).
- **ApiSerializers**: the recipe payload's field rules, `RecipeCreateSerializer.create` and
  the two constant read-side fields.
- **ApiModels** and **UserModels**: the records, their column and uniqueness constraints
  as table invariants, default orderings, string forms and cascading deletes.
- **Filters**: the recipe filters (`author`, `tags`, favourites, shopping cart) and the
  ingredient name filter.
- **UserSerializers**: the `data:image…;base64,` header split, the username pattern and
  the sign-up uniqueness checks, and the avatar update.
- **UserViews**: unsubscribing, avatar upload and removal, the subscriptions listing,
  and the choice of serializer class.
- **ImportData**: the row rule of the CSV import command and its two loops.
- **Common** and **Strings**: shared sequence and string helpers. These are Python's
  `str.split`, `str.join`, `str.find`, `str.lower` and `str.strip`, decimal printing
  and reading, and a case-insensitive prefix test. The framework's text fields and
  filters strip their input with `str.strip`, and the model does the same.

The code that changes state (the two loops of `list_to_txt`, `create`,
`update_or_create_ingredient`, the avatar save, the unsubscribe delete and the import loops)
is written as methods on the `Database`. Each is proved against a pure function of
the old state, and the properties are proved as lemmas about those functions. Filters and
validators are pure functions.

Modelling decisions:

- Integers are unbounded.
- Recipe-ingredient amounts are integers, as the payload's `IntegerField` delivers them.
- A new record's id is one more than the largest id in its table, standing in for the
  database's auto-increment.
- Tables are sequences in insertion order.
- The favourite, shopping-list and subscription relations are sets of pairs. Their
  models are not part of this model, so at most one row per pair is assumed.
- The database is assumed to refuse a value longer than its column. This is a
  `DataError`, as PostgreSQL raises, and the import command and `create` rely on it.
- Python's `dict` keeps insertion order. The shopping-list table is therefore a key
  sequence plus a map, and a missing key reads as a `defaultdict` entry, amount 0 and
  unit `""`.

## Model

| member | source | states |
|---|---|---|
| Services.CartRowOf | backend/api/services.py:34-36 | a join row contributes a value row exactly when its recipe is in this user's shopping list and its ingredient exists; the value row carries the row's amount and that ingredient's name and unit |
| Services.CartRowsFromCart | backend/api/services.py:34-36 | a value row is in the query result exactly when some join row of the user's cart contributes it, so only recipes in this user's shopping list contribute |
| Services.CartRowsConcat | backend/api/services.py:34-36 | the query yields, for each join row in table order, its own value row or nothing: the rows of a concatenation are those of its parts in sequence, so each join row contributes exactly once |
| Services.Tally | backend/api/services.py:32-43 | the first loop leaves the distinct names as the table's keys in first-occurrence order; every key maps to the sum of the amounts of its rows and the unit of its last row |
| Services.WriteLines | backend/api/services.py:45-46 | the second loop appends one `"{name} - {amount} {unit}\n"` line per table entry, in table order |
| Services.ListToTxt | backend/api/services.py:30-47 | the file's text is the header followed by one line per distinct name of the user's cart rows, in first-occurrence order, with that name's total and last unit |
| Services.TallyStep | backend/api/services.py:38-43 | one turn of the first loop keeps the key order equal to the names met so far, in first-occurrence order, and every entry equal to its name's running total and latest unit; a name not yet met has amount 0 and unit `""`, as the defaultdict's factory gives |
| Services.SnocStep | backend/api/services.py:38-43 | one more row appends its name only if the name is new, adds its amount to that name's total, and makes its unit that name's unit; no other name changes |
| Services.NamesDistinct | backend/api/services.py:32 | no ingredient name is listed twice |
| Services.NamesCover | backend/api/services.py:38-40 | a name is listed exactly when some cart row carries it |
| Services.NamesInFirstOccurrenceOrder | backend/api/services.py:32 | names listed earlier occur earlier in the rows: the first row of a later name comes after the first row of an earlier one |
| Services.TotalConcat | backend/api/services.py:38-40 | a name's total over two runs of rows is the sum of its totals over each |
| Services.TotalPermutation | backend/api/services.py:34-40 | a name's total does not depend on the order in which the query returns the rows |
| Services.LastUnitIsLast | backend/api/services.py:41-43 | a name no row carries gets the default unit `""`; otherwise its unit is that of a row carrying it with no later row carrying it |
| Services.ShoppingLinesOnePerName | backend/api/services.py:32-46 | every name of the input is on exactly one line, no other name is on a line, and each line carries its name's total and last unit |
| Services.EmptyCartIsHeader | backend/api/services.py:31 | with no cart row the file is exactly the 17-character header `"Список покупок \n\n"`, not an error |
| Services.PrintedLineShape | backend/api/services.py:31-46 | for the j-th distinct name, the file is the header, the printed lines of the names before it, then `{name} - {total} {unit}` with that name's summed amount and last unit and a newline, then the printed lines of the names after it |
| Mixins.UpdateOrCreateIngredient | backend/api/mixins.py:18-28 | the join table becomes the old one without the recipe's rows, followed by the new rows; no other table changes; the database stays valid when the recipe and every submitted ingredient exist |
| Mixins.ReplaceRowsOwn | backend/api/mixins.py:19-28 | afterwards the recipe's rows are exactly one per submitted entry, in submitted order, each with that entry's ingredient and amount; duplicates give their own rows and none of the old rows survives |
| Mixins.ReplaceRowsOthers | backend/api/mixins.py:19 | every other recipe's rows are the same rows in the same order |
| Mixins.ReplaceRowsIdempotent | backend/api/mixins.py:19-28 | replacing twice with the same list gives the table that replacing once gives |
| Mixins.ReplaceRowsReference | backend/api/mixins.py:20-28 | the new table references only existing recipes and ingredients, given the recipe and every submitted ingredient exist |
| Mixins.GetChosenRecipe | backend/api/mixins.py:32-37 | false for an anonymous requester whatever the relation holds; for an authenticated one, true exactly when the (user, recipe) pair is in the relation |
| ApiSerializers.ReferenceErrors | backend/api/serializers.py:24-33 | one error per ingredient entry and per tag whose primary key names no record, and no other error |
| ApiSerializers.NameErrors | backend/api/serializers.py:35 | the `name` `CharField` on its stripped value: blank is refused before any other rule; otherwise over 256 characters and a null character each raise their own error, and no other error is raised |
| ApiSerializers.TextErrors | backend/api/serializers.py:36 | the `text` `CharField` on its stripped value: blank is refused; otherwise a null character is; nothing else |
| ApiSerializers.ScalarErrors | backend/api/serializers.py:34-37 | on the stripped name and text: a null image, a blank name, a name over 256 characters, a null character in the name, a blank text, a null character in the text and a cooking time below 1 each raise their error exactly when its rule is broken, and nothing else does |
| ApiSerializers.ScalarErrorsOnInput | backend/api/serializers.py:35-36 | on the submitted text, a name or text is refused as blank exactly when it is empty or whitespace only, and for a null character exactly when it holds one |
| ApiSerializers.ValidationErrors | backend/api/serializers.py:23-37 | each field error is raised exactly when its rule is broken, the name and text rules applying to the stripped values |
| ApiSerializers.AcceptedIff | backend/api/serializers.py:23-37 | a payload is accepted exactly when every reference resolves, the image is present, the name is not whitespace only and at most 256 characters once stripped, the text is not whitespace only, neither holds a null character, and the cooking time is at least 1 |
| ApiSerializers.EmptyAndDuplicateAccepted | backend/api/serializers.py:32-33 | an empty ingredient list, and the same ingredient submitted twice, are both accepted |
| ApiSerializers.CreateKwargsAsWritten | backend/api/serializers.py:45-47 | as written, after the two pops the only keyword the recipe model refuses is `name`; without the pops it would also refuse `recipe_ingredients` and `tags` |
| ApiSerializers.CreateKwargsCorrected | backend/api/serializers.py:45-47 | with `name` passed on as the `title` column, the model accepts every remaining keyword |
| ApiSerializers.Create | backend/api/serializers.py:44-57 | the create succeeds exactly when the stripped name fits the 200-character title column and the author has no recipe with that title; an over-long title or a taken (author, title) pair gives its error and leaves everything unchanged; on success exactly one recipe is appended under a fresh id with the stripped name and text, followed by one join row per submitted entry with its amount; no other table changes and the database stays valid |
| ApiSerializers.CreateKeepsValid | backend/api/serializers.py:47-55 | the new recipe and its rows keep the recipe constraints and every reference |
| ApiSerializers.NewRecipeContents | backend/api/serializers.py:46-55 | the new recipe's tags are exactly the submitted tags as a set, and its join rows are exactly its submitted entries, in order |
| ApiSerializers.IsFavoritedField | backend/api/serializers.py:76-77 | always false |
| ApiSerializers.IsInShoppingCartField | backend/api/serializers.py:79-80 | always false |
| ApiModels.IngredientStr | backend/api/models.py:22-23 | the string form starts with `name (` and ends with `unit)`, three characters longer than name and unit together |
| ApiModels.DeleteRecipeCascades | backend/api/models.py:95 | once a recipe is deleted no join row references it, every other row is kept, and the remaining rows reference existing records |
| ApiModels.DeleteIngredientCascades | backend/api/models.py:96 | once an ingredient is deleted no join row references it, every other row is kept, and the remaining rows reference existing records |
| ApiModels.OrderByPubDate | backend/api/models.py:87 | the recipe listing is sorted by publication date and is a permutation of the table |
| Filters.UndefinedMetaFields | backend/api/filters.py:23-25 | an entry of `Meta.fields` is reported exactly when it is neither a field of the model nor a declared filter |
| Filters.RecipeFilterFieldsAsWritten | backend/api/filters.py:23-25 | `RecipeFilter`'s `('name',)` is reported: the recipe model's column is `title` and no filter is declared under that name |
| Filters.RecipeFilterFieldsCorrected | backend/api/filters.py:23-25 | `('title',)` or the declared filters build without error, as does `IngredientFilter`'s `('name',)` |
| Filters.FilterAuthor | backend/api/filters.py:7-9 | a missing or blank value leaves the listing alone; a stripped value that is not a signed decimal is the cast's error, carrying the value, and only then is there an error; otherwise the result is a subsequence holding exactly the recipes of that author |
| Filters.FilterAuthorPadded | backend/api/filters.py:7-9 | an id with a space on each side selects the same recipes as the id alone |
| Filters.FilterAuthorLeadingZero | backend/api/filters.py:7-9 | an id with a leading zero selects the same recipes as the id alone |
| Filters.FilterAuthorNotANumber | backend/api/filters.py:7-9 | the value `abc` is the cast's error |
| Filters.TagBySlug | backend/api/filters.py:10-13 | the id found is that of a tag with the slug, and none is found exactly when no tag has it |
| Filters.ResolveSlugs | backend/api/filters.py:10-13 | an unknown slug is an error naming it; otherwise the ids are exactly those of the requested slugs |
| Filters.FilterTags | backend/api/filters.py:10-15 | no slug leaves the listing alone; an unknown slug is an error; otherwise the result is a subsequence keeping a recipe exactly when it has any requested tag |
| Filters.FilterChosen | backend/api/filters.py:27-35 | unless the requester is authenticated and the flag is true the listing is unchanged; otherwise it is a subsequence keeping a recipe exactly when the requester's pair with it is in the relation (favourites or shopping list) |
| Filters.FilterChosenAgreesWithMixin | backend/api/filters.py:27-35 | when the filter applies it keeps exactly the recipes for which `get_chosen_recipe` answers true |
| Filters.FilterIngredientName | backend/api/filters.py:39 | a missing or blank query leaves the listing alone; otherwise the result is a subsequence keeping an ingredient exactly when its lower-cased name starts with the lower-cased stripped query |
| Filters.FilterIngredientNameCaseBlind | backend/api/filters.py:39 | for the letters `Strings.Lower` folds, the query's letter case does not change the result |
| Filters.FilterIngredientNameKeepsExact | backend/api/filters.py:39 | every ingredient whose name starts with the stripped query exactly is kept |
| Strings.IntToStringRoundTrip | backend/api/services.py:46 | the decimal form an amount is printed in reads back as that amount |
| UserModels.NewUser | backend/users/models.py:23-29 | a new user has no avatar and the given other fields |
| UserModels.UserStrIdentifies | backend/users/models.py:49-50 | a user's string form is the username, so in a valid table no two users share it |
| UserModels.InsertUserValid | backend/users/models.py:12-18 | appending a user keeps the table valid exactly when the new record is valid and shares no id, e-mail or username with an existing one; a valid record has a non-blank e-mail of at most 254 characters and a username that is not `me` |
| UserModels.ReplaceUserValid | backend/users/models.py:42-46 | changing fields outside the constraints, such as the avatar, keeps the table valid |
| UserModels.OrderByEmail | backend/users/models.py:47 | the user listing is sorted by e-mail and is a permutation of the table |
| UserSerializers.ToInternalValue | backend/users/serializers.py:18-23 | anything but a `data:image` string passes through unchanged; otherwise the result is either an unpacking error or an upload whose payload and header rebuild the input around the one `;base64,`, and whose name is `temp.` plus the header's last `/`-piece; no separator gives the one-piece error |
| UserSerializers.UploadNameExtension | backend/users/serializers.py:21-22 | the derived name is `temp.` followed by an extension without `/` |
| UserSerializers.ToInternalValueRoundTrip | backend/users/serializers.py:19-22 | `header;base64,payload`, with no separator inside header or payload, gives back exactly that payload, named after the header |
| UserSerializers.ToInternalValueTwoSeparators | backend/users/serializers.py:20 | two separate `;base64,` occurrences give at least three pieces and an unpacking error |
| UserSerializers.LeadingRun | backend/users/serializers.py:107 | the greedy `[\w.@+-]+` run: every character before it is in the class and the character it stops at is not |
| UserSerializers.UsernamePatternIff | backend/users/serializers.py:107 | the pattern accepts exactly a non-empty run of class characters, optionally followed by one final newline |
| UserSerializers.ValidateUsername | backend/users/serializers.py:101-109 | an accepted username matches the pattern and is not `me`; a taken error names a user holding the username under an e-mail other than the submitted one |
| UserSerializers.ValidateUsernameTaken | backend/users/serializers.py:102-108 | in a valid table the taken error is raised exactly when another e-mail holds the username, before and whatever the format check says; the username is accepted exactly when it is not so taken, matches the pattern and is not `me`, with its one optional final newline |
| UserSerializers.BannedUsernameRefused | backend/users/serializers.py:107-108 | `me` is always refused |
| UserSerializers.ValidateEmail | backend/users/serializers.py:93-99 | an error names a user holding the e-mail whose username differs from the submitted one; an e-mail nobody holds is accepted |
| UserSerializers.ValidateEmailTaken | backend/users/serializers.py:94-98 | in a valid table the e-mail is refused exactly when its holder's username is not the submitted one |
| UserSerializers.AvatarAfterUpdate | backend/users/serializers.py:33-34 | no validated avatar keeps the record; a validated one replaces the avatar; no other field changes |
| UserSerializers.UpdateAvatar | backend/users/serializers.py:33-36 | the saved record is the updated one, no other user or table changes, and the database stays valid |
| UserViews.GetSerializerClass | backend/users/views.py:28-32 | POST gives the sign-up serializer, GET the profile serializer, any other method none |
| UserViews.UnsubscribeResponse | backend/users/views.py:101-128 | 404 exactly when the author does not exist; 204 with `Успешная отписка` exactly when the pair is subscribed; otherwise 400 with `{'errors': 'Вы не подписаны'}` |
| UserViews.SubscriptionsAfterUnsubscribe | backend/users/views.py:119-120 | exactly the one pair is removed when it exists, and the relation is unchanged in every other case |
| UserViews.Unsubscribe | backend/users/views.py:101-128 | the DELETE branch answers and updates the relation as those two functions say, and changes nothing else |
| UserViews.UnsubscribeTwice | backend/users/views.py:104-128 | a second unsubscribe from an existing author answers 400 and changes nothing |
| UserViews.SubscriptionsOf | backend/users/views.py:137-139 | the listing holds exactly the requester's own subscriptions |
| UserViews.UnsubscribeListing | backend/users/views.py:119-139 | unsubscribing removes exactly that author from the requester's listing and leaves every other user's listing alone |
| UserViews.UserIndex | backend/users/views.py:42 | the lookup finds a user with the id exactly when one exists |
| UserViews.AvatarFieldOutcome | backend/users/serializers.py:18-27 | a failed unpacking or an undecodable payload raises; a plain string that does not start with `data:image` is rejected as no file; an uploaded file, or a payload that unpacks and decodes, is accepted exactly when the image field accepts it and rejected as a validation error otherwise |
| UserViews.PlainStringAvatarRefused | backend/users/serializers.py:18-23 | a PUT of the avatar `hello` answers 400 naming the `avatar` field and leaves the users table unchanged |
| UserViews.AvatarResponse | backend/users/views.py:41-60 | 404 exactly when the requester is gone; a PUT without the key gives 400, a null gives 400 naming the field, a rejected image gives 400 naming the field, and a raised exception gives 500; 200 exactly for an accepted image; DELETE gives 204 |
| UserViews.UsersAfterAvatar | backend/users/views.py:41-60 | only the requester's avatar can change, and only on 200 (to the stored file) or 204 (cleared); in every other case the table is unchanged |
| UserViews.UploadAvatar | backend/users/views.py:41-60 | the action answers and updates the table as those functions say, changes no other table, and keeps the database valid |
| UserViews.AvatarDeleteIdempotent | backend/users/views.py:50-60 | removing the avatar twice is removing it once, and a PUT without the key afterwards changes nothing |
| ImportData.CreateIngredient | backend/api/management/commands/import_data.py:33-36 | an insertion fails with a data error exactly when a value exceeds its column, and otherwise with an integrity error exactly when the name is taken; it succeeds exactly when neither happens, appending a record with the two values under a fresh id |
| ImportData.CreateTag | backend/api/management/commands/import_data.py:44 | the same for tags, where both the name and the slug must be free; it succeeds exactly when the values fit and both are free |
| ImportData.IngredientStep | backend/api/management/commands/import_data.py:29-36 | a row of fewer than two fields is skipped, more than two raise an unpacking error, an empty name is skipped, and a creating row is inserted |
| ImportData.TagStep | backend/api/management/commands/import_data.py:40-44 | the same row rule for tags |
| ImportData.ImportStopsAtError | backend/api/management/commands/import_data.py:29-44 | once a row raises, no later row is looked at |
| ImportData.ImportConcat | backend/api/management/commands/import_data.py:29-44 | rows are processed in file order, each on the table the earlier rows left |
| ImportData.IngredientImportRecords | backend/api/management/commands/import_data.py:29-36 | an ingredient import that raises nothing saw no row of more than two fields, kept the old table as a prefix, and added one record per creating row, in file order, from its two fields |
| ImportData.TagImportRecords | backend/api/management/commands/import_data.py:40-44 | the same for tags |
| ImportData.ImportIngredientsValid | backend/api/management/commands/import_data.py:29-36 | the ingredient table stays valid, whether or not a row raised |
| ImportData.ImportTagsValid | backend/api/management/commands/import_data.py:40-44 | the tag table stays valid, whether or not a row raised |
| ImportData.ImportIngredientRows | backend/api/management/commands/import_data.py:27-36 | the ingredient loop leaves the table and the error that the row rule gives, and changes no other table |
| ImportData.ImportTagRows | backend/api/management/commands/import_data.py:38-44 | the tag loop leaves the table and the error that the row rule gives, and changes no other table |
| ImportData.Handle | backend/api/management/commands/import_data.py:23-46 | all ingredient rows come before any tag row; an ingredient error leaves the tags untouched and is the command's error; the database stays valid |

## Left out

- HTTP wrapping: `HttpResponse`, the attachment header, permissions, pagination and routing. Responses are a status code and a body tag.
- `generate_short_link`: it depends on an external URL-shortening library and on request URL building.
- Base64 decoding and image validation. `UserViews.UploadAvatar` takes whether the payload decodes, whether the image field accepts the file, and the stored file name as parameters.
- The admin modules, `backend/api/views.py`, and the subscribe POST branch. Serializers such as `SubscribeSerializer`, `UserProfileSerializer` and `SetPasswordSerializer`, imported by the views, are not part of this model.
- Opening the CSV files and tokenising them. The import works on rows already split into fields, and the success message is not modelled.
- Floating-point amounts. The column is a float, so the downloaded list would print `3.0` where this model prints `3`.
- The favourite, shopping-list and subscription models. Their relations are sets of pairs.
- The `[1, 32000]` bounds and the role and confirmation-code constants: no shown code enforces them.
- The code has no check that rejects empty or duplicate ingredient and tag lists; `ApiSerializers.EmptyAndDuplicateAccepted` proves both pass.
- An empty cart prints the header alone (`Services.EmptyCartIsHeader`).
- `TagFilter` is not part of this model.
- The filtered querysets keep table order. The ORM's SQL, joins and `distinct` handling are not modelled.
- `Tag.__str__` and `Recipe.__str__` are plain field reads and are not modelled. `RecipeIngredient.__str__` prints the float amount and is not modelled.
- Filters.FilterAuthor: Python's `int` also reads underscores between digits and non-ASCII decimal digits; `Strings.ParseInt` refuses both, so such a value is an error here.
- ApiSerializers.ScalarErrors: the `CharField` refusal of surrogate characters is not modelled, because a Dafny `char` is never a surrogate.
- UserModels.OrderByEmail: e-mails are ordered by code point (`Strings.StrLe`); the database orders the column by its collation, which may differ.
- ApiSerializers.AcceptedIff: the payload is taken with every field present and already typed, so DRF's "This field is required." refusal of a missing `ingredients`, `tags`, `image`, `name`, `text` or `cooking_time`, and its "A valid integer is required." refusal of a non-integer `cooking_time` or `amount`, are not modelled.
- Filters.FilterIngredientName: `istartswith` becomes the database's `UPPER(name) LIKE UPPER(query)`, which folds every cased letter (`É`/`é` among them); `Strings.Lower` folds only `A`–`Z`, `А`–`Я` and `Ё`, so names differing from the query only in other letters' case are not matched case-blindly here.
- UserSerializers.WordChar: `\w` covers ASCII letters, digits and `_` plus the basic Cyrillic letters and `ё`/`Ё`, not every Unicode letter. `Strings.Lower` folds the same letters only.
- UserSerializers.ValidateUsername: the framework's trimming, `max_length` and required-field checks that run before `validate_username` are not modelled. The same holds for `ValidateEmail` and e-mail format checking.
- `UserSerializer.validate` (the PATCH path) is not part of this model.
- `list_to_txt` is modelled as two methods, `Services.Tally` and `Services.WriteLines`, one per loop, and `Services.ListToTxt` calls them in turn.
- Concurrency and transactions: every operation runs alone. A failing import row keeps the records of the rows before it, as in the command, which has no transaction.

## Findings

| source | as written | input that shows it | evidently intended | confidence | as-written member | corrected member |
|---|---|---|---|---|---|---|
| backend/api/serializers.py:35,47 and backend/api/models.py:53 | `create` passes the serializer's `name` field to `Recipe.objects.create`, but the recipe model's column is `title`, so the model constructor refuses the unexpected keyword | any accepted recipe payload, e.g. name `"soup"`, text `"boil"`, cooking time 1, one image | the submitted name is stored as the recipe's title | not executed | ApiSerializers.CreateKwargsAsWritten | ApiSerializers.Create |
| backend/api/filters.py:23-25 | `RecipeFilter`'s `Meta.fields` lists `name`, which is neither a field of the recipe model (its column is `title`) nor a declared filter; django-filter refuses such an entry with `TypeError` when it creates the class, so importing the module fails | importing `api.filters` | `('title',)`, or the declared filters | plausible; rests on django-filter's class creation; not executed | Filters.RecipeFilterFieldsAsWritten | Filters.RecipeFilterFieldsCorrected |
