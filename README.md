# Car collection manager: the owner-scoped `cars` table and its React client

The application is a React front end over a hosted Supabase backend. Signed-in users keep a
collection of cars, each with a car id, make, model, year and an optional picture. This project
models in Dafny the part of it that has rules of its own:

- **Schema** (`schema.dfy`) is the `cars` table declared in `src/lib/supabase.js`:
  - the column bounds (`VARCHAR(50)`, `VARCHAR(100)`, 32-bit `INTEGER`);
  - the unique primary key and the unique `car_id`;
  - the four row-level-security policies `auth.uid() = user_id`, under SQL's NULL semantics.
  INSERT, UPDATE-by-id and DELETE-by-id are pure functions from the old rows to a `Write`, which
  holds a count or a PostgreSQL error together with the new rows. PostgreSQL's order of checks is
  kept: type coercion, then the policy, then the unique indexes. The `CarsTable` class holds the
  rows, keeps the schema's constraints as its invariant, and has one method per statement, each
  proved against its function.
- **Query** (`query.dfy`) covers the parts of a PostgREST query the components use:
  - `ilike` patterns, with `%`, its alias `*`, and `_`;
  - `order('created_at', { ascending: false })`, `limit(n)` and `order('make')`.
  **Text** (`text.dfy`) and **Collections** (`collections.dfy`) hold the ASCII case folding,
  substring, lexicographic order, filter and `[...new Set(...)]` helpers these rely on.
- **CarForm** (`car_form.dfy`) is the create/edit form of `src/components/CarForm.jsx`:
  - the `register(...)` rules, in react-hook-form's first-error-per-field order;
  - the image size and type checks, the storage path, the public URL and the submitted record.
  The `Form` class holds the field values, `imageUrl`, `uploading` and `loading`. Its methods are
  `fetchCar`, `uploadImage`, `handleImageChange` and `onSubmit` (behind `handleSubmit`).
- **CarList** (`car_list.dfy`) is `src/components/CarList.jsx`. It has the search, make filter and
  order of `fetchCars`, and the distinct sorted makes of `fetchMakes`. Its `Page` class runs
  `fetchCars`, `fetchMakes` and confirm-then-delete-then-refetch.
- **Dashboard** (`dashboard.dfy`) is `fetchDashboardData` of `src/components/Dashboard.jsx`. It gives
  the visible-row count, the five newest rows and the distinct makes, with a fallback for each query
  that returns no data.

Inputs the code takes from its environment are parameters of the model:
- the caller's uid (`auth.uid()`, `None` when signed out);
- the `gen_random_uuid()` id and the `now()` time of an insert;
- the current year;
- the `Math.random()` file name;
- the storage upload's success;
- the project URL for `getPublicUrl`;
- the `window.confirm` answer.

Three behaviours of the code may be surprising; the model follows the code in each:
- One might expect a "not found" error for an update or delete of an id that does not exist, or
  that the caller does not own. Instead it is a successful statement that affects 0 rows:
  PostgREST reports it that way and the components only look at `error`.
- `updated_at` is never refreshed on update.
- A form whose fields pass validation can still be refused by the table. One example is a `car_id`
  longer than 50 characters, which the form does not bound. `Form.HandleSubmit` then returns the
  database error. A `make` or `model` that is too long only because of trailing spaces is instead
  cut to its column's length and stored.

## Model

| member | source | states |
|---|---|---|
| Schema.FitsColumns | src/lib/supabase.js:14-17 | the stored values fit `VARCHAR(50)`, `VARCHAR(100)`, `VARCHAR(100)` and 32-bit `INTEGER` |
| Schema.VarcharAccepts | src/lib/supabase.js:14-16 | a `VARCHAR(n)` takes a string of at most `n` characters, or a longer one with only spaces after the `n`-th character |
| Schema.VarcharValue | src/lib/supabase.js:14-16 | the stored value is at most `n` characters, a prefix of the given string, either all of it or exactly `n` characters, and only spaces are dropped |
| Schema.Coerce | src/lib/supabase.js:14-17 | `car_id`, `make` and `model` each become their `VarcharValue`, so a space-padded string is cut to its column's length; `year`, `image_url` and `user_id` are kept; the result fits its columns and is the input whenever the input already fits |
| Schema.CoercionError | src/lib/supabase.js:14-17 | the values are refused iff one cannot be assigned to its column; a string longer than its column with a non-space past the limit is reported as a string-length error, and otherwise a year outside the 32-bit range as an integer-range error |
| Schema.OwnerPolicy | src/lib/supabase.js:32-45 | `auth.uid() = user_id` holds only when both sides are non-NULL and equal; all four policies are this test |
| Schema.Owns | src/lib/supabase.js:32-45 | the caller passes the owner policy for the row's `user_id` |
| Schema.WellFormed | src/lib/supabase.js:13-21 | unique `id` and `car_id`, every value within its column type, and `created_at` not after `updated_at`: the table's invariant |
| Schema.Visible | src/lib/supabase.js:32-33 | a caller sees exactly the rows whose `user_id` equals their uid; a signed-out caller sees none |
| Schema.IndexOf | src/lib/supabase.js:13 | finds the first row with the given primary key, or reports that no row has it |
| Schema.SelectById | src/components/CarForm.jsx:34-40 | `.eq('id', id).single()` yields a row iff a row with that id is visible to the caller, and that row is the visible one with that id |
| Schema.InsertRow | src/lib/supabase.js:13-21 | succeeds iff the values can be assigned, `user_id` is the caller, and neither the fresh id nor the coerced `car_id` is in use by any row of any owner; a success appends one row of the coerced values with both timestamps at `now`; a failure leaves the table unchanged; values that cannot be assigned fail with their coercion error, and the error is the policy or uniqueness one exactly in its case; the constraints are preserved |
| Schema.Apply | src/lib/supabase.js:13-21 | an update sets the six client columns and keeps `id`, `created_at` and `updated_at` |
| Schema.UpdateRows | src/lib/supabase.js:40-41 | succeeds iff the values can be assigned and, when the caller owns the row, the new `user_id` is still the caller's and the coerced `car_id` is free among the other rows; counts 1 iff the caller owns row `id` and 0 otherwise, as for a missing id; values that cannot be assigned fail with their coercion error; only the targeted row changes, to the coerced values; no row changes owner; the constraints are preserved |
| Schema.RemoveAt | src/lib/supabase.js:44-45 | removing one row keeps the constraints and removes exactly that row |
| Schema.DeleteRows | src/lib/supabase.js:44-45 | always succeeds; removes the caller's row with that id, counting 1, or nothing, counting 0; every other row stays; the constraints are preserved |
| Schema.InsertVisibility | src/lib/supabase.js:32-37 | after an insert the owner sees their old rows plus the new one at the end, and every other caller sees exactly what they saw before |
| Schema.UpdateInvisibleToOthers | src/lib/supabase.js:40-41 | an update by one caller changes nothing another caller can see |
| Schema.DeleteInvisibleToOthers | src/lib/supabase.js:44-45 | a delete by one caller changes nothing another caller can see |
| Schema.CarsTable.constructor | src/lib/supabase.js:12-22 | a new table is empty and meets its constraints |
| Schema.CarsTable.Insert | src/lib/supabase.js:13-21 | the result and the new rows are those of `InsertRow` on the old rows; the constraints remain |
| Schema.CarsTable.Update | src/lib/supabase.js:40-41 | the result and the new rows are those of `UpdateRows` on the old rows; the constraints remain |
| Schema.CarsTable.Delete | src/lib/supabase.js:44-45 | the result and the new rows are those of `DeleteRows` on the old rows; the constraints remain |
| Text.Lower | src/components/CarList.jsx:27 | ASCII case folding keeps the length and folds each character on its own |
| Text.LowerAppend | src/components/CarList.jsx:27 | case folding distributes over concatenation |
| Text.Utf16Length | src/components/CarForm.jsx:187-190 | JavaScript's `.length` counts UTF-16 code units: between the character count and twice it, equal to it when every character is in the Basic Multilingual Plane, larger when one is not |
| Text.LexLeTotal | src/components/CarList.jsx:51 | the code-point order of `order('make')` is total |
| Text.LexLeTransitive | src/components/CarList.jsx:51 | the code-point order is transitive |
| Collections.Filter | src/components/CarList.jsx:26-32 | a filter keeps exactly the elements that satisfy the condition and never lengthens the list |
| Collections.FilterAppend | src/components/CarList.jsx:26-32 | filtering distributes over concatenation |
| Collections.FilterRemoveRejected | src/lib/supabase.js:44-45 | removing an element a filter rejects leaves the filtered list unchanged |
| Collections.Distinct | src/components/CarList.jsx:55 | `[...new Set(xs)]` has the same members as `xs` and no repeats |
| Collections.ListingCardinality | src/components/Dashboard.jsx:99 | a list without repeats that lists exactly the members of a set is as long as the set is large |
| Query.LikeMatch | src/components/CarList.jsx:27 | the LIKE match of a whole string against a pattern in which `%` and `*` match any run and `_` any one character |
| Query.ILike | src/components/CarList.jsx:27 | `column ILIKE pattern`: the LIKE match after ASCII case folding of both sides |
| Query.LikePrefix | src/components/CarList.jsx:27 | a pattern free of wildcards and backslashes followed by `%` matches exactly the strings it is a prefix of |
| Query.LikeLeadingAny | src/components/CarList.jsx:27 | a leading `%` lets the rest of the pattern match any suffix |
| Query.LikeContains | src/components/CarList.jsx:27 | `%t%`, for a `t` free of wildcards and backslashes, matches exactly the strings containing `t` |
| Query.ILikeIsSubstring | src/components/CarList.jsx:27 | `column.ilike.%t%` holds iff the column contains `t` ignoring ASCII case, for a `t` free of wildcards and backslashes |
| Query.OrderByCreatedDesc | src/components/CarList.jsx:24 | the result is newest first and is a permutation of its input |
| Query.PrefixIsNewest | src/components/Dashboard.jsx:32-33 | every row in a prefix of a newest-first list is at least as new as every row outside it |
| Query.Limit | src/components/Dashboard.jsx:33 | `limit(n)` is the first min(n, length) rows |
| Query.LimitOfNewest | src/components/Dashboard.jsx:29-33 | the first `n` newest-first rows are newest first, are drawn from the input, and are each at least as new as every row left out |
| Query.OrderAscending | src/components/CarList.jsx:51 | `order('make')` gives an ascending permutation of its input |
| Query.MakesQuery | src/components/CarList.jsx:48-51 | the makes query is ascending and holds exactly the makes of the caller's rows |
| Query.DistinctOfAscending | src/components/CarList.jsx:51-55 | dropping repeats from an ascending list leaves a strictly ascending one |
| Query.UniqueMakes | src/components/CarList.jsx:48-56 | the list of makes is strictly ascending, has no repeats and holds exactly the makes of the caller's rows |
| CarList.MatchesSearch | src/components/CarList.jsx:26-28 | an empty term passes every row; otherwise `car_id`, `make` or `model` must be ILIKE `%term%` |
| CarList.MatchesMake | src/components/CarList.jsx:30-32 | an empty make passes every row; otherwise `make` must equal it exactly |
| CarList.Criteria | src/components/CarList.jsx:26-32 | the SELECT policy AND the search filter AND the make filter |
| CarList.ListCars | src/components/CarList.jsx:19-37 | the listing is newest first, a permutation of the matching rows, and a row is in it iff the caller owns it and it passes the search and the make filter; no match gives an empty list |
| CarList.SearchIsSubstring | src/components/CarList.jsx:26-32 | for a non-empty term free of wildcards and backslashes, a row is listed iff the caller owns it, its `car_id`, `make` or `model` contains the term ignoring ASCII case, and it passes the make filter |
| CarList.NoFilterListsAll | src/components/CarList.jsx:26-32 | with an empty term and an empty make the listing holds every visible row |
| CarList.DeletedIdNotListed | src/components/CarList.jsx:68-76 | after a delete the refetched listing never shows the deleted id |
| CarList.Page.constructor | src/components/CarList.jsx:8-12 | the page starts with empty lists and filters and with `loading` set |
| CarList.Page.FetchCars | src/components/CarList.jsx:19-44 | `cars` becomes the listing for the current term and make, `loading` becomes false, the rest stays |
| CarList.Page.FetchMakes | src/components/CarList.jsx:46-60 | `makes` becomes the distinct sorted makes of the caller's rows |
| CarList.Page.DeleteCar | src/components/CarList.jsx:62-81 | a declined confirmation changes nothing; an accepted one deletes as `DeleteRows` says, refetches the listing, and the id is then absent from it |
| Dashboard.Summarize | src/components/Dashboard.jsx:41-47 | a returned count and recent list are passed on as they are (`totalCars || 0`, `recentCars || []`); a query without data gives 0 or an empty list; the makes are those of the query without repeats |
| Dashboard.RecentCars | src/components/Dashboard.jsx:29-33 | min(5, n) of the caller's n rows, newest first, drawn from the visible rows, none older than a visible row left out |
| Dashboard.DashboardData | src/components/Dashboard.jsx:21-47 | the count is the number of visible rows, the recent rows are `RecentCars`, and the makes are strictly ascending and hold exactly the makes of the caller's rows |
| Dashboard.UniqueMakesFigure | src/components/Dashboard.jsx:99 | the "Unique Makes" figure equals the number of different makes among the caller's rows |
| CarForm.MatchesCarIdPattern | src/components/CarForm.jsx:166 | `/^[A-Za-z0-9-_]+$/` as one class character followed by the end of input or another match |
| CarForm.CarIdPatternIff | src/components/CarForm.jsx:165-168 | `/^[A-Za-z0-9-_]+$/` accepts exactly the non-empty strings of ASCII letters, digits, `-` and `_` |
| CarForm.CarIdError | src/components/CarForm.jsx:163-169 | `car_id` passes iff it is non-empty and every character is a letter, digit, `-` or `_`; an empty one fails `required` |
| CarForm.TextError | src/components/CarForm.jsx:185-191 | a text field passes iff it is non-empty and its JavaScript `.length`, in UTF-16 code units, is at least the minimum; an empty one fails `required` |
| CarForm.YearError | src/components/CarForm.jsx:229-239 | `year` passes iff present and 1900 ≤ year ≤ currentYear + 1; above the upper bound fails `max`, whether or not it is also below 1900; below 1900 and within the upper bound fails `min` |
| CarForm.Validate | src/components/CarForm.jsx:163-239 | the form has no errors iff `car_id` matches its pattern, `make` has a `.length` of at least 2, `model` of at least 1, and `year` is in range; the errors are exactly each field's first failing rule |
| CarForm.CheckImage | src/components/CarForm.jsx:120-136 | reports a missing file; a file over 5·1024·1024 bytes is refused before its type is looked at; a file is accepted iff its size is at most 5 MiB and its type is `image/jpeg`, `image/jpg` or `image/png`, so exactly 5 MiB passes |
| CarForm.LastDot | src/components/CarForm.jsx:59 | the position of the last `.`, or none when the name has no `.` |
| CarForm.FileExt | src/components/CarForm.jsx:59 | `split('.').pop()` is a dot-free suffix of the name that is either the whole name or follows a `.` |
| CarForm.FileExtAfterDot | src/components/CarForm.jsx:59 | the extension of `p + "." + e` is `e` for a dot-free `e` |
| CarForm.StoragePath | src/components/CarForm.jsx:59-61 | `userId/random.ext`; its shape is stated by `StoragePathOwner` and `StoragePathExt` |
| CarForm.StoragePathOwner | src/components/CarForm.jsx:60-61 | the storage path starts with the user's id and a `/` |
| CarForm.StoragePathExt | src/components/CarForm.jsx:59-61 | the storage path has the chosen file's extension |
| CarForm.PublicUrl | src/components/CarForm.jsx:69-71 | the project URL, the public prefix of the `car-images` bucket, then the path |
| CarForm.PublicUrlInjective | src/components/CarForm.jsx:69-71 | different storage paths have different public URLs |
| CarForm.CarRecord | src/components/CarForm.jsx:87-94 | the record carries the three text fields, the year as an integer, the current `imageUrl` and the user's id |
| CarForm.Prefill | src/components/CarForm.jsx:43-46 | the four `setValue` calls: `car_id`, `make`, `model` and `year` from the fetched row |
| CarForm.EditRoundTrip | src/components/CarForm.jsx:42-48 | submitting a prefilled form unchanged writes back the row's own columns, except that a NULL `image_url` comes back as `''` |
| CarForm.RecordPassesOwnerPolicy | src/components/CarForm.jsx:93 | the record the form builds always passes the owner policy for its own user |
| CarForm.Form.constructor | src/components/CarForm.jsx:13-15 | a new form has empty fields, `imageUrl` is `''`, and it is neither uploading nor loading |
| CarForm.Form.FetchCar | src/components/CarForm.jsx:32-53 | a found row fills the four fields and sets `imageUrl` to its `image_url` or `''`; when no row is found nothing changes |
| CarForm.Form.UploadImage | src/components/CarForm.jsx:55-81 | a successful upload sets `imageUrl` to the public URL of `userId/random.ext`; a failed one leaves it unchanged; `uploading` is false afterwards either way |
| CarForm.Form.HandleImageChange | src/components/CarForm.jsx:120-136 | a missing, too large or wrongly typed file changes nothing; an accepted one is uploaded |
| CarForm.Form.HandleSubmit | src/components/CarForm.jsx:83-118 | an invalid form changes neither the table nor the form; a valid one updates row `id` when editing and inserts with the fresh id when creating, always with the same record for the signed-in user; the result is never a policy violation; `loading` is false afterwards |

## Left out

- Rendering, toasts, `console.error` and `navigate(...)` are presentation only, so they are not modelled.
- Sign-in, AuthContext, the auth callback and the route gate are not modelled. The caller's uid is a parameter.
- The `rpc('create_cars_table')` call is left out. The schema it creates is the model's table, and the two plain indexes on `user_id` and `car_id` only change speed.
- Network and storage failures other than the one modelled are not represented. The upload's success is a parameter. A read that fails leaves the form unchanged, as a missing row does.
- Concurrency is left out: the three dashboard queries, and requests still in flight when the user navigates away.
- CarList.ListCars, Query.MakesQuery: these return every matching row. A hosted deployment caps each response at its `max-rows` setting (1000 by default). That cap is configuration, not code. The exact count is not capped.
- Query.ILike: PostgREST filter parsing is not modelled. This includes the backslash escape and the special meaning of `,`, `(` and `)` inside `or(...)`. Case folding covers ASCII letters only; the database's locale rules for other letters are not modelled.
- Query.OrderByCreatedDesc: rows with equal `created_at` come in some fixed order. PostgreSQL promises no order for them, and no contract here depends on it.
- Query.OrderAscending: uses code-point order, not the database collation.
- Schema.Apply: `updated_at` is never refreshed, because nothing in the code or the schema sets it on update.
- Schema.InsertRow: the `user_id REFERENCES auth.users(id)` foreign key is not checked, because the set of registered users is out of scope. The uid the form sends is the signed-in user's.
- CarForm.CarRecord: the year input is modelled as an optional integer, the value `min` and `max` test. Text such as `2.023e3`, which validates as 2023, is stored as `parseInt`'s 2. `.2023e4` also validates, but `parseInt` gives NaN, which is sent as `null` and refused by `NOT NULL`. Neither outcome is represented.
- CarForm.Form.HandleSubmit: the route id is a `RowId`, so a malformed id such as `abc` cannot be expressed. The database refuses such an id as invalid uuid syntax, so the edit's select and update both fail.
- CarForm.PublicUrl: the storage SDK passes the URL through `encodeURI`, which percent-encodes spaces and non-ASCII characters of the path. The model joins the raw path. Injectivity holds either way.
- CarForm.Form.UploadImage: the stored file's contents, and files uploaded but never saved with a car, are not tracked. `Math.random()` is a string parameter.
- CarDetail.jsx is not part of this model. It repeats the select-by-id and delete-by-id operations modelled here.
- Dashboard loading flag: `Dashboard.DashboardData` is the one `setStats` write; the `loading` spinner state is presentation.
