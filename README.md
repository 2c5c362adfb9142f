# QR menu pages: a Dafny model of the decision logic

The repository renders a restaurant's QR-code menu and its admin dashboard. Data, sessions and roles all live in a hosted backend. This project models the three pieces of logic the pages run on that backend's answers:

- **Category grouping** (`Grouping`). The menu page folds each fetched list into an object with one bucket per category string. It creates a bucket the first time a category is seen and appends records to it in input order. The model is a `for` loop that builds the accumulator: its own keys in insertion order, plus a map from key to bucket. The loop is proved against an independent specification:
  - `Grouped`: for each distinct category, the stable filter of the input by that category.
  - `FirstSeen`: the order in which categories first appear.
- **Menu load** (`Menu`). A `MenuPage` class holds the two item lists and the `loading` flag. `FetchMenuData` settles them from two already-settled query results. Both error fields are checked before either list is assigned. `data || []` turns a null payload into an empty list. `loading` is cleared on every path. `Render` groups both lists and shows a spinner while loading.
- **Admin gate** (`Admin`). An `AdminPage` class holds `loading` and `isAdmin`. `CheckAuth` takes the result of the session lookup and a function that stands for the role table. It issues the admin-role query only when there is a session, and returns the query it issued, the redirect target and the toast. `RenderGate` is the pure render rule over the two flags.

Backend calls are parameters. A query result is `Backend.Response<T>`, the backend's `{data, error}` pair with both parts nullable. The session lookup is either resolved to an optional session or rejected (the awaited call throws). The role table is a function from `(userId, role)` to a response. Toasts and navigation are output values.

The model follows what the code does:
- Records have exactly the fields the page's interfaces declare, all required (src/pages/Menu.tsx:9-30).
- Nothing rejects records that lack an identifier or a category.
- A role lookup that matches several rows is reported by the backend as an error, so it takes the error path.
- A session lookup that resolves with an error carries no session. The code then sends the user to `/auth` with no toast. Only a lookup that throws produces the "Authentication error" toast.
- Grouping as written throws for some category names, and the page model renders with the corrected grouper instead: see Findings and Left out.

## Model

| member | source | states |
|---|---|---|
| `Grouping.GroupByCategory` | src/pages/Menu.tsx:61-69 | The corrected reduce loop (presence is tested against the accumulator's own keys; see Findings) yields exactly `Grouped(items)` and key order `FirstSeen(items)`. Empty input gives the empty object. The bucket keys are exactly the distinct categories of the input. No bucket is empty. The key order lists each key once. |
| `Grouping.GroupedSnoc` | src/pages/Menu.tsx:63-66 | One fold step: the new record is appended to its own category's bucket, and a missing bucket is first created empty. All other buckets are unchanged. |
| `Grouping.BucketEmptyIff` | src/pages/Menu.tsx:63-66 | A category's bucket is empty exactly when the category does not occur in the input. |
| `Grouping.BucketIsStableFilter` | src/pages/Menu.tsx:62-67 | A bucket is the input records at an ascending list of positions. A position is in that list iff the record's category string is identical to the key. This is stability plus exact, unnormalised matching, so two records share a bucket iff their categories are equal. |
| `Grouping.BucketMembersMatch` | src/pages/Menu.tsx:63-66 | Every record in a bucket carries that bucket's category. |
| `Grouping.BucketDrawnFromInput` | src/pages/Menu.tsx:66 | Every record in a bucket is a record of the input. |
| `Grouping.FirstSeenIsKeyOrder` | src/pages/Menu.tsx:63-65 | The key order has no repeats and contains exactly the input's categories. |
| `Grouping.FirstSeenPrefix` | src/pages/Menu.tsx:62-67 | The key order after a prefix of the input is a prefix of the final key order. Keys are only ever appended. |
| `Grouping.FirstSeenOrder` | src/pages/Menu.tsx:62-67 | Suppose a category occurs in some prefix of the input. Then every category listed before it in the key order also occurs in that prefix. |
| `Grouping.GroupsPartitionInput` | src/pages/Menu.tsx:61-68 | Concatenating the buckets in key order gives a permutation of the input, with each record exactly as often as it occurs. The total count is kept. |
| `Grouping.RegroupIdempotent` | src/pages/Menu.tsx:61-69 | Grouping the flattened output again yields the same buckets and the same key order. |
| `Grouping.ContiguousFlattenRestores` | src/pages/Menu.tsx:61-69 | Assume each category's records are adjacent, as the category-ordered query of lines 44-45 returns them. Then reading the buckets in key order gives back the input exactly. |
| `Grouping.AsWrittenThrowsOnInheritedNames` | src/pages/Menu.tsx:63-66 | The reduce as written throws exactly when some category names an inherited `Object.prototype` member. Otherwise it yields the same object as `GroupByCategory`. |
| `Grouping.InheritedCategoryThrows` | src/pages/Menu.tsx:63-66 | A single record of category "constructor" makes the reduce as written throw a TypeError. The intended grouping is one bucket `"constructor" := [record]`. |
| `Menu.MenuPage.constructor` | src/pages/Menu.tsx:33-35 | The page starts with two empty lists and `loading` true. |
| `Menu.MenuPage.FetchMenuData` | src/pages/Menu.tsx:41-59 | If either result carries an error, both lists keep their previous values and the toast is "Failed to load menu". Otherwise each list becomes its payload, or the empty list when the payload is null, and there is no toast. `loading` is false on both paths. The held records stay available, given the backend's `available = true` filter. |
| `Menu.MenuPage.Render` | src/pages/Menu.tsx:71-80 | The spinner shows iff `loading`. Otherwise both menus are shown, grouped by the corrected grouper, with buckets `Grouped(list)` and key order `FirstSeen(list)`. Every record in every bucket is available. |
| `Menu.MountMenu` | src/pages/Menu.tsx:33-80 | The first render is the spinner and, with the corrected grouper, the settled render is the menu body. A failed query gives the failure toast and two empty menus, never a partial one. Success gives no toast, and each menu's buckets and display key order are those of its payload, or of the empty list for a null payload. |
| `Admin.RenderGate` | src/pages/Admin.tsx:61-73 | The placeholder shows iff `loading`. The dashboard shows iff not loading and `isAdmin`. |
| `Admin.AdminPage.constructor` | src/pages/Admin.tsx:14-15 | The page starts loading and not admitted. |
| `Admin.AdminPage.CheckAuth` | src/pages/Admin.tsx:21-53 | With no session, the target is `/auth`, no role query is issued and the user is not admitted. A thrown session lookup gives "Authentication error" and `/auth`. With a session, the only query is the session user's `admin` row. A query error gives "Authentication error" and `/auth`. No row gives the privilege toast and `/`. A row gives `isAdmin` with no redirect and no toast. Admitted iff not redirected iff `Admits`. `loading` is false on every path. |
| `Admin.MountAdmin` | src/pages/Admin.tsx:14-73 | The first render is the placeholder. After the check, the dashboard shows iff the lookups admit the caller, and that happens iff no redirect is made. With no session, no role query is issued, the target is `/auth` and there is no toast. A thrown session lookup gives "Authentication error" and `/auth`. With a session, the only query issued is the session user's `admin` row. A role-query error gives "Authentication error", `/auth` and no dashboard. No row gives the privilege toast, `/` and no dashboard. A row gives the dashboard with no redirect and no toast. |

## Left out

- src/pages/Index.tsx is static landing-page markup with no logic.
- The backend client itself is a foreign SDK: session fetch, table queries, `signOut`. Its answers are inputs. The `available = true` filter is the precondition `ServesAvailableAlcohol`/`ServesAvailableFood`. The category ordering appears only as the hypothesis of `ContiguousFlattenRestores`.
- `Promise.all` concurrency: both menu results are taken as already settled. A rejected query promise is not modelled. The backend client reports query failures in the `error` field.
- `console.error` output is not modelled. Toasts and `navigate` calls are return values.
- JSX rendering is not modelled, including the truthiness-based display of price tiers (a price of `0` renders as `0`) and the brand and description lines.
- Display order of `Object.entries`: the model tracks own-key insertion order only. JavaScript lists integer-like keys first, in ascending numeric order, and that is not modelled.
- `handleLogout` and the admin child components (`AlcoholManager`, `FoodManager`, `QRCodeGenerator`) are not part of this model.
- Prices are `real`: JavaScript number rounding plays no part in the modelled decisions.
- Menu.MenuPage.Render / Menu.MountMenu: render with the corrected grouper. The code as written throws a TypeError during render when a category names an inherited `Object.prototype` member (see Findings); that behaviour is modelled only by `Grouping.ReduceAsWritten` and its lemmas.
- Admin.AdminPage.CheckAuth: requires the state the page is created in (loading, not admitted). The mount effect runs it only from that state.

## Findings

| source | as written | input that shows it | evidently intended | confidence | as-written member | corrected member |
|---|---|---|---|---|---|---|
| src/pages/Menu.tsx:63-66 | `!acc[item.category]` on an object literal also sees members inherited from `Object.prototype`. For a category such as "constructor", "toString" or "__proto__" no bucket is created, and `acc[item.category].push(item)` throws a TypeError during render. | one available record whose `category` is "constructor" | every category string gets its own bucket, as for any other name | high; not executed | `Grouping.InheritedCategoryThrows` | `Grouping.GroupByCategory` |
