# Permission-driven navigation of the S3 mobile app

This project models the only decision logic in the mobile app's main
navigator (`src/navigation/MainNavigator.tsx`):

- **`getPermisos(permissions, ruta)`** resolves the logged-in user's
  permission records for one route. It keeps the records whose `id` is the
  mobile application's id, the options of those records whose `url` is the
  route, and writes the `titulo` of every allowed flag into a local array at
  the flag's own position. The result is a JavaScript sparse array plus its
  length `cantidad`.
- **The initial route** of the drawer is the quote-approval screen when that
  route resolves to a non-empty array, else the service-acceptance screen
  when that one does, else `'/unauthorized'`.
- **The drawer menu** renders one item per option that has a non-empty
  `permissions` list, in the options' order.

Modules:

- `Wrappers` (`wrappers.dfy`) holds `Option`. A hole of a sparse array is
  `None`.
- `Permissions` (`permissions.dfy`) models the permission records and
  `getPermisos`.
  - `GetPermisos` runs the three nested `forEach` loops of `getPermisos`. The loop over records is in
    `GetPermisos`. The loops over options and over flags are the methods
    `StoreOptions` and `StoreFlags`. Each allowed flag is stored with
    `Store`, which has JavaScript's `a[i] = v` semantics: past the end the
    array grows and leaves holes.
  - `GetPermisos` is proved equal to `Resolve`. `Resolve` is defined without
    the loops. `Writes` lists the `(index, titulo)` assignments in the order
    the loops make them. `Table` applies them in turn to an empty array.
  - `TableSpec` characterises that array independently. Its length is
    `Extent` (one more than the highest index written). Its slot `i` is
    `Last` (the title written last at `i`, or a hole).
  - The lemmas then describe the result using the permission records alone.
    `Grants` says that some matching option allows its flag at position `i`
    with title `t`.
- `Navigator` (`navigator.dfy`) models the choice of the initial route and
  the menu filter.

The mobile application id (`env.idAppMovil`) and the route table (`ROUTES`)
are parameters. The app id is an `int` compared with `==`.

## Model

| member | source | states |
|---|---|---|
| Permissions.Store | src/navigation/MainNavigator.tsx:35 | `permisos[index] = titulo` sets slot `index`. It keeps every other existing slot. Past the end it extends the array to `index + 1` and leaves holes between the old end and `index`. |
| Permissions.GetPermisos | src/navigation/MainNavigator.tsx:27-43 | The three nested loops return `Resolve`. That is the array left by the allowed flags' writes of matching options of matching records, in iteration order. `cantidad` is its length. |
| Permissions.StoreOptions | src/navigation/MainNavigator.tsx:31-39 | The loop over one record's options adds, in order, the writes of exactly the options whose `url` equals the route. |
| Permissions.StoreFlags | src/navigation/MainNavigator.tsx:33-37 | The loop over one option's flags stores each allowed flag's title at the flag's own position. Denied flags write nothing. |
| Permissions.Extent | src/navigation/MainNavigator.tsx:42 | The length after a list of writes exceeds every written index. When positive, some write lands on the last slot. |
| Permissions.Last | src/navigation/MainNavigator.tsx:29-35 | A slot holds a hole exactly when no write targets it. Otherwise it holds the title of a write to it that no later write to the same slot follows (last write wins). |
| Permissions.TableSpec | src/navigation/MainNavigator.tsx:33-42 | Applying the writes in order gives an array of length `Extent`. Each slot `i` holds `Last(ws, i)`. |
| Permissions.WritesSpec | src/navigation/MainNavigator.tsx:29-37 | A write of `t` at `i` happens if and only if some record with the app id has an option for the route whose flag `i` is allowed and titled `t`. |
| Permissions.NoRecordsNoPermisos | src/navigation/MainNavigator.tsx:27-43 | With no permission records, any route resolves to an empty array with `cantidad == 0`. |
| Permissions.CantidadIsExtent | src/navigation/MainNavigator.tsx:33-42 | `cantidad` equals the array length. Every granted position is below it. When positive, position `cantidad - 1` is granted. So it is 1 + the highest granted index, not a count of flags. It is positive if and only if some flag is granted. |
| Permissions.EntriesAreGranted | src/navigation/MainNavigator.tsx:30-36 | Below `cantidad`, a slot is defined if and only if some matching option allows the flag at that position. A defined slot holds the title of such a flag. Other slots are holes. |
| Permissions.AllDeniedIsEmpty | src/navigation/MainNavigator.tsx:33-35 | If every flag of every matching option is denied, the result is empty with `cantidad == 0`. |
| Permissions.Relevant | src/navigation/MainNavigator.tsx:30-32 | Every kept record has the app id and only options for the route. Every record with the app id is kept, cut down to its options for the route. It never grows the list. |
| Permissions.RelevantSound | src/navigation/MainNavigator.tsx:30-32 | Every kept record is an input record with the app id, cut down to its options for the route: the filter invents nothing. |
| Permissions.RelevantAppend | src/navigation/MainNavigator.tsx:29-30 | Filtering the records keeps their order: the filter of `a + b` is the filter of `a` followed by the filter of `b`. |
| Permissions.MatchingOptions | src/navigation/MainNavigator.tsx:31-32 | An option is kept if and only if it is in the list and its `url` equals the route. The result is never longer than the input. |
| Permissions.MatchingOptionsAppend | src/navigation/MainNavigator.tsx:31-32 | Filtering the options keeps their order: the filter of `a + b` is the filter of `a` followed by the filter of `b`. |
| Permissions.IrrelevantIgnored | src/navigation/MainNavigator.tsx:30-32 | Removing the records of other applications and the options of other routes leaves the result unchanged. |
| Permissions.OtherAppIgnored | src/navigation/MainNavigator.tsx:30 | A record with another application id, anywhere in the list, leaves the result unchanged. |
| Permissions.LastAppend | src/navigation/MainNavigator.tsx:29-35 | Where a later batch of writes writes a slot, it decides that slot. Elsewhere the earlier batch does. |
| Permissions.ExtentAppend | src/navigation/MainNavigator.tsx:35-42 | Two batches of writes leave an array as long as the longer of the arrays each leaves alone. |
| Permissions.ResolveAppend | src/navigation/MainNavigator.tsx:29-42 | For records `ps1 + ps2`, `cantidad` is the larger of the two parts' `cantidad`. Each slot holds the later part's value where it has one, and otherwise the earlier part's value (or nothing). The last matching record in iteration order wins. |
| Permissions.SplitRecord | src/navigation/MainNavigator.tsx:29-35 | A record whose options are `os1 + os2` resolves like two consecutive records with options `os1` and `os2`, so `ResolveAppend` also decides between options of one record. |
| Permissions.LaterRecordsOverride | src/navigation/MainNavigator.tsx:29-35 | Where later records define slot `i`, the result for all records has their value at `i`, whatever earlier records wrote. |
| Permissions.LaterOptionsOverride | src/navigation/MainNavigator.tsx:31-35 | Inside one record, where later options define slot `i`, their value at `i` wins over earlier options. |
| Permissions.ExampleWithHole | src/navigation/MainNavigator.tsx:33-42 | Flags `A` allowed, `B` denied, `C` allowed give `[A, hole, C]` with `cantidad == 3`, although only two flags are allowed. |
| Navigator.InitialRoute | src/navigation/MainNavigator.tsx:61-66 | Quote approval is chosen if and only if some flag is granted for its route. Service acceptance is chosen if and only if none is granted for quote approval and some for service acceptance. Unauthorized is chosen if and only if none is granted for either. Hours registration is never chosen. |
| Navigator.InitialRouteRegistered | src/navigation/MainNavigator.tsx:61-71 | The initial route key is the quote-approval key, the service-acceptance key or `/unauthorized`. |
| Navigator.MenuItems | src/navigation/MainNavigator.tsx:99-110 | Every rendered item comes from an option with non-empty permissions. Every such option is rendered. There are never more items than options. |
| Navigator.MenuItemsAppend | src/navigation/MainNavigator.tsx:99-110 | The menu preserves order: the menu of `a + b` is the menu of `a` followed by the menu of `b`. |
| Navigator.MenuItemsAllVisible | src/navigation/MainNavigator.tsx:99-110 | When every option has permissions, item `k` is option `k` rendered. |
| Navigator.MenuItemsNoneVisible | src/navigation/MainNavigator.tsx:99-110 | When no option has permissions, nothing is rendered. |

## Left out

- The loading indicator shown while no user is logged in (`MainNavigator.tsx:45-53`) is left out. It is rendering only.
- The `Header` component (`MainNavigator.tsx:118-205`) is left out. Its profile pop-up toggle is local UI state, and `logout()` belongs to the authentication context, which is not part of this model.
- Styles, icons, the logo and `Modalstyles` (`MainNavigator.tsx:207-240`) are left out. So is `src/components/Options/TitleOption.tsx`, which only styles a title.
- The drawer wiring is not modelled: screen registration, `unmountOnBlur` and `navigation.navigate`. The four registered destinations appear only as the `Screen` datatype and `RouteKey`.
- `usePermissions` is not part of this model. The menu takes the option list that hook returns as an input, with the fields the menu reads.
- `ROUTES` and `env` are not part of this model. The route keys and the application id are parameters.
- The type of the application id is not known. The model uses `int` and strict equality.
- JavaScript's limit on array indices (below 2^32 - 1) is not modelled. Positions are unbounded naturals.
- `permitido` is modelled as a boolean. Truthiness of other values is not modelled.
- The permission lists are modelled as dense sequences. `forEach` skips holes in its input arrays, which matters only for sparse inputs.
- The resolver's result is sometimes described as an ordered list of titles. The code builds a sparse array indexed by flag position, and the model follows the code.
