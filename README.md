# projects-manager: input validation and the TTL cache, in Dafny

The service stores "Project" records (a name, a date range and a GeoJSON area
of interest). The only logic in it beyond framework plumbing is:

- the field validators of the Pydantic schemas in
  `projects_manager/domain/projects/schemas.py`: the loose MultiPolygon shape
  check on `area_of_interest.geometry`, the `end_date` check of the create and
  update schemas, and the 1-32 character bound on `name`;
- `InMemoryCache` in `projects_manager/config/cache.py`, a string-keyed table
  whose entries expire after `expiration_time` (300 by default).

Modules:

- `Wrappers`: `Option` and `Result`.
- `JsonValues`: the raw JSON value a `mode="before"` validator receives (null,
  bool, int, string, list, dict) and Python's truthiness on it.
- `AreaOfInterest`: `validate_geometry` as `ValidateGeometry`, with its four
  error kinds in check order, plus an independent typed reading of the accepted
  shape (decode the coordinates into lists of polygons of rings, round-trip
  proved) that its acceptance is proved equal to.
- `Dates`: Python dates, `strftime("%Y-%m-%d")` as `IsoFormat`, Python's `str`
  ordering as `LexLess`, and the proof that comparing two zero-padded ISO date
  strings as strings is calendar order.
- `ProjectSchemas`: the `name` bounds, `validate_end_date` of both schemas (the
  raw end value compared as a string with the formatted start date), and the
  database check constraint `start_date <= end_date`
  (`projects_manager/domain/projects/models.py:20`) as a predicate.
- `Cache`: the `InMemoryCache` class over a `map<string, Entry<V>>` field, with
  an integer `now` in place of `time.time()`, and the live view a reader can
  observe at a given time.

## Model

| member | source | states |
|---|---|---|
| `AreaOfInterest.ValidateGeometry` | projects_manager/domain/projects/schemas.py:15-36 | an accepted geometry is returned unchanged; any value that is not a dictionary is rejected with the dictionary error, whatever it holds |
| `AreaOfInterest.RejectionOrder` | projects_manager/domain/projects/schemas.py:21-25 | a missing or non-"MultiPolygon" type gets the type error even without coordinates; a MultiPolygon with no coordinates key, or a non-list there, gets the coordinates error; with a coordinates list neither of those errors occurs |
| `AreaOfInterest.CoordinatesOkDecodes` | projects_manager/domain/projects/schemas.py:27-31 | the nested `all(...)` holds iff the coordinates decode into a list of polygons of rings (every polygon and ring a list) whose rings all have 4+ positions |
| `AreaOfInterest.AcceptsExactly` | projects_manager/domain/projects/schemas.py:18-36 | the validator accepts iff the value is a dictionary, its type is exactly "MultiPolygon", its coordinates are a list, and they decode into a multipolygon with every ring of 4+ positions |
| `AreaOfInterest.AcceptsEveryEncoding` | projects_manager/domain/projects/schemas.py:21-36 | every typed multipolygon with rings of 4+ positions, written as JSON under "coordinates" with type "MultiPolygon", is accepted unchanged whatever other keys the dictionary has |
| `AreaOfInterest.PositionsNotInspected` | projects_manager/domain/projects/schemas.py:27-31 | two coordinate lists with the same polygon, ring and position counts get the same verdict: positions are never looked into |
| `AreaOfInterest.OneBadRingRejects` | projects_manager/domain/projects/schemas.py:27-34 | one polygon that is not a list, or one ring that is not a list or has fewer than 4 positions, rejects the whole geometry with the structure error |
| `AreaOfInterest.EmptyListsAccepted` | projects_manager/domain/projects/schemas.py:27-36 | an empty coordinates list, or polygons with no rings, are accepted vacuously |
| `AreaOfInterest.DecodeMultiPolygon` | projects_manager/domain/projects/schemas.py:27-31 | decoding succeeds iff every polygon and every ring is a list, and then keeps every polygon's rings in order |
| `AreaOfInterest.MultiPolygonRoundTrip` | projects_manager/domain/projects/schemas.py:27-31 | decoding the JSON form of a typed multipolygon gives it back |
| `AreaOfInterest.DecodeMultiPolygonInverse` | projects_manager/domain/projects/schemas.py:27-31 | a coordinates list that decodes is exactly the JSON form of what it decodes to |
| `Dates.IsoFormat` | projects_manager/domain/projects/schemas.py:57-59 | `strftime("%Y-%m-%d")` of a date is ten characters with dashes after the year and the month |
| `Dates.LexLessFirstDifference` | projects_manager/domain/projects/schemas.py:57 | `LexLess`, Python's `str` `<`, holds iff the left string is a proper prefix of the right or has the smaller code point at the first position where they differ |
| `Dates.IsoFormatOrder` | projects_manager/domain/projects/schemas.py:57-59 | for valid dates, the strftime("%Y-%m-%d") strings compare as Python strings exactly as the dates compare in the calendar |
| `Dates.IsoFormatInjective` | projects_manager/domain/projects/schemas.py:57-59 | distinct valid dates never format to the same string |
| `Dates.LexLessTotal` | projects_manager/domain/projects/schemas.py:57 | Python's string `<` orders any two distinct strings one way or the other (with `LexLessIrreflexive`, `LexLessAsymmetric`, `LexLessTransitive`: a strict total order) |
| `ProjectSchemas.ValidateName` | projects_manager/domain/projects/schemas.py:40 | a name is accepted, unchanged, iff its length is between 1 and 32; the empty name is the too-short error |
| `ProjectSchemas.ValidateOptionalName` | projects_manager/domain/projects/schemas.py:65 | on update `None` is accepted and a string is bounded exactly as on creation |
| `ProjectSchemas.LessThanString` | projects_manager/domain/projects/schemas.py:57-59 | `v < s` with a str `s` raises the `TypeError` iff the raw value is not a string, and otherwise is the string order |
| `JsonValues.Truthy` | projects_manager/domain/projects/schemas.py:77 | the falsy raw values are exactly null, false, 0, the empty string, the empty list and the empty dictionary |
| `ProjectSchemas.ValidateEndDateOnCreate` | projects_manager/domain/projects/schemas.py:52-61 | returns the raw end value unchanged or fails; nothing is checked when start_date is absent from the validated data; with a start present, a string end is accepted iff it is not lexicographically below the formatted start (else "end before start"), and a non-string end is the `TypeError`; never the lookup error |
| `ProjectSchemas.ValidateEndDateOnUpdate` | projects_manager/domain/projects/schemas.py:71-81 | returns the raw end value unchanged or fails; start_date absent from the validated data raises the lookup error; start None or a falsy end skips the check; a start date with a truthy end gives exactly the create verdict; accepted iff one of those skips applies or the end is a string not below the formatted start |
| `ProjectSchemas.UpdateAgreesWithCreate` | projects_manager/domain/projects/schemas.py:75-80 | with a start date and a truthy end value, the update validator gives exactly the create validator's verdict |
| `ProjectSchemas.CreateIsCalendarOrder` | projects_manager/domain/projects/schemas.py:55-60 | on a formatted end date, create rejects iff the end is strictly before the start in the calendar; equal dates pass |
| `ProjectSchemas.UpdateIsCalendarOrder` | projects_manager/domain/projects/schemas.py:75-80 | the same for update when a start date is present |
| `ProjectSchemas.CreateAgreesWithStorage` | projects_manager/domain/projects/schemas.py:55-60 | create's validator accepts a formatted end date iff the database constraint `start_date <= end_date` (models.py:20) holds for the pair |
| `ProjectSchemas.PartialUpdateUnchecked` | projects_manager/domain/projects/schemas.py:75-81 | an update carrying only a start date, or only an end date, passes the validator even when it breaks the constraint against the stored other date |
| `Cache.IsLive` | projects_manager/config/cache.py:15 | an entry is readable strictly before timestamp + expiration time; at that instant it has expired |
| `Cache.InMemoryCache.constructor` | projects_manager/config/cache.py:7-10 | the table starts empty and the expiration time is the argument (300 by default) |
| `Cache.InMemoryCache.Get` | projects_manager/config/cache.py:12-19 | returns the stored value iff the key is present and younger than the expiration time (age equal to it counts as expired); an expired entry is deleted, only that key; a missing key leaves the table as it was; no reader at `now` or later sees a difference |
| `Cache.InMemoryCache.Set` | projects_manager/config/cache.py:21-23 | the key's entry becomes (value, now), overwriting; no other key changes; with a positive expiration the value is visible at `now` |
| `Cache.InMemoryCache.Clear` | projects_manager/config/cache.py:25-30 | a truthy key removes only that key (no error when absent); no key or the empty key empties the table |
| `Cache.SetThenGet` | projects_manager/config/cache.py:13-23 | with a positive expiration time, get right after set at the same instant returns the value just set |
| `Cache.LiveViewShrinks` | projects_manager/config/cache.py:15 | as time advances entries only disappear from the readable view, never appear or change |
| `Cache.LiveViewAfterStore` | projects_manager/config/cache.py:21-23 | storing at `now` with a positive expiration adds exactly that key and value to what is readable at `now` |
| `Cache.LiveViewAfterEvict` | projects_manager/config/cache.py:17-18 | deleting an entry expired at `now` changes nothing readable at `now` or later |

## Left out

- HTTP routes, database sessions, the ORM model, error-to-JSON mapping, settings and CORS wiring: framework and library plumbing with no logic of their own.
- Pydantic's own coercion: parsing the `end_date` string into a date after the validator, the `Dict[str, Any]` coercion of `geometry`, and the other `AreaOfInterest` fields (`type`, `properties`). The model states the validators on the raw value only.
- JSON floats: numbers are modelled as integers. The validators never read a position, so only the truthiness of a raw `end_date` number is affected.
- `Dates.IsoFormat`, `Dates.IsoFormatOrder`, `Dates.IsoFormatInjective`: `%Y` is modelled as four zero-padded digits, which is what CPython 3.13 and later print on Linux. CPython 3.12 and earlier on Linux print years below 1000 without padding, so there the rendering of such a date is shorter than ten characters and string order and calendar order can disagree; these members do not cover that rendering.
- `ProjectSchemas.ValidateEndDateOnCreate`, `ProjectSchemas.ValidateEndDateOnUpdate`: a `KeyError` or `TypeError` raised while evaluating the condition is returned as an error kind. What the framework does with such an exception is not modelled.
- The database `unique=True` on `name` and the `String(32)` column width: enforced by the database, not by Python code.
- `Cache.InMemoryCache.Get`: returns `Option<V>`. Python returns `None` both for a miss and for a stored `None`, so the model distinguishes two cases the source cannot.
- The cache's `threading.Lock` and the float `time.time()` clock: the model is sequential and takes the time as an integer argument.
