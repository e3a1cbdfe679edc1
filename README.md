# UserController sanitiser, rule tables and store — a Dafny model

This project models the core of the user API controller of a Laravel
application (`app/Http/Controllers/Api/UserController.php`):

- `filterData`, the recursive sanitiser applied to a request's fields
  before validation. String fields are stripped of tags and trimmed
  (`trim(strip_tags($v))`) and kept only when the result is truthy.
  Non-empty nested arrays are replaced by their own sanitised form.
  Integers and floats are copied. Everything else is dropped.
- `getRules`, the two rule tables (create mode without a user, update mode
  with one), and `getMessages`, the message catalogue with its literal
  Portuguese templates.
- `store`: sanitise the request, validate the sanitised data with the
  create rules and the catalogue, then answer 400 with the error bag or
  create the user from the sanitised data.

Modules:

- `Php` (`php.dfy`) holds the fragment of PHP the controller relies on:
  - values, and ordered arrays as `seq<(Key, Value)>` in insertion order;
  - `$a[$k]`, as `Lookup`;
  - `$a[$k] = $v`, as `Assign`, which overwrites an existing key in its
    place and otherwise appends;
  - `trim`, `ltrim` and `rtrim` with the default character set
    `" \t\n\r\0\x0B"`;
  - string truthiness (`""` and `"0"` are falsy) and `empty()`.
- `Sanitizer` (`sanitizer.dfy`) holds `FilterData`, an imperative method
  with the source's `foreach` loop and its recursive call. It is proved
  against the specification function `Sanitized`, a fold of `Assign` over
  the entries, each written as its `Cleaned` form. The properties of the
  sanitiser are lemmas about `Sanitized`.
- `Validation` (`rules.dfy`) holds the rule tables and the catalogue as
  data: field name to an ordered list of rule constructors with their bounds.
- `Controller` (`controller.dfy`) holds `Store`. Laravel's validator is a
  function parameter.

`strip_tags` is uninterpreted. It is a parameter `stripTags: string -> string`
of every sanitiser member.

## Model

| member | source | states |
|---|---|---|
| Php.Assign | app/Http/Controllers/Api/UserController.php:73 | `$data[$key] = …` makes the key read back as the new value; a missing key is appended at the end; overwriting an existing key keeps the array's length |
| Php.AssignLookup | app/Http/Controllers/Api/UserController.php:73 | after the write, every other key reads exactly as before |
| Php.AssignInPlace | app/Http/Controllers/Api/UserController.php:76 | overwriting an existing key keeps it in its place: the length and the key at every position are unchanged |
| Php.AssignKeepsDistinct | app/Http/Controllers/Api/UserController.php:79 | the write keeps the keys of a PHP array distinct |
| Php.AssignEntries | app/Http/Controllers/Api/UserController.php:73 | every entry after the write is an old entry or the written pair |
| Php.LTrimSpec | app/Http/Controllers/Api/UserController.php:72 | `ltrim` yields a suffix that does not start with a trim character, having removed only trim characters |
| Php.RTrimSpec | app/Http/Controllers/Api/UserController.php:72 | `rtrim` yields a prefix that does not end with a trim character, having removed only trim characters |
| Php.Trim | app/Http/Controllers/Api/UserController.php:72 | the result of `trim` neither starts nor ends with a trim character |
| Php.Truthy | app/Http/Controllers/Api/UserController.php:72 | a string is falsy exactly when it is empty or the one-character string "0"; every string of two or more characters is truthy |
| Php.IsEmpty | app/Http/Controllers/Api/UserController.php:68 | `empty()` holds for integer 0, both float zeros (the bit pattern without its sign bit is 0), "" and "0", the empty array, null and false; an object and true are never empty (the same test guards nested arrays at line 75) |
| Php.TrimStripsEnds | app/Http/Controllers/Api/UserController.php:72 | the result of `trim` is a contiguous part of the input, with only trim characters before and after it |
| Sanitizer.CleanString | app/Http/Controllers/Api/UserController.php:72-73 | the cleaned string `trim(strip_tags($value))` is trimmed at both ends |
| Sanitizer.Cleaned | app/Http/Controllers/Api/UserController.php:72-80 | an entry is written exactly when it is a string whose cleaned form is truthy, a non-empty array, an integer or a float; a written value keeps its kind (string, array); integers and floats are written unchanged |
| Sanitizer.Sanitized | app/Http/Controllers/Api/UserController.php:65-83 | an empty or non-array argument gives the empty array; the result never has more entries than the argument |
| Sanitizer.FilterData | app/Http/Controllers/Api/UserController.php:65-83 | the loop's result is `Sanitized(values)`; an empty or non-array argument gives the empty array |
| Sanitizer.SanitizedKeysFromInput | app/Http/Controllers/Api/UserController.php:71-81 | every key of the output is a key of the input, and an input that is not an array gives no keys |
| Sanitizer.SanitizedLookup | app/Http/Controllers/Api/UserController.php:71-81 | under each key the output holds exactly the cleaned form of the input's value, and nothing when the input lacks the key or the value is dropped |
| Sanitizer.SanitizedField | app/Http/Controllers/Api/UserController.php:72-80 | a string is kept if and only if its cleaned form is truthy, and it is kept as that trimmed form; integers and floats, 0 included, are copied unchanged; a nested array is kept if and only if it is non-empty, and then as its own sanitised form; booleans, null and objects are dropped |
| Sanitizer.SanitizedOrder | app/Http/Controllers/Api/UserController.php:71-81 | the output's keys appear in the same relative order as in the input |
| Sanitizer.SanitizedIsClean | app/Http/Controllers/Api/UserController.php:71-81 | at every depth the output holds only truthy trimmed strings, numbers and arrays of the same kind, never a boolean, null or object, and its keys are distinct |
| Sanitizer.EmptiedNestedArrayIsKept | app/Http/Controllers/Api/UserController.php:75-77 | a non-empty nested array whose entries are all dropped is kept under its key as an empty array; that empty array is dropped by a second pass |
| Sanitizer.FoldLookup | app/Http/Controllers/Api/UserController.php:71-81 | after the loop has visited `n` entries, a key reads as the value written for its entry if that entry is among the first `n`, and as nothing otherwise |
| Sanitizer.FoldOrder | app/Http/Controllers/Api/UserController.php:71-81 | after `n` iterations, the keys written so far come from the first `n` entries, in increasing input position |
| Validation.GetRules | app/Http/Controllers/Api/UserController.php:36-51 | both tables cover name, email and password; every field carries `required` if and only if no user is given; the bounds are name max 255 and min 5 and password max 20 and min 6 in both modes; password is `confirmed` and email is `email`; email's `unique:users` ignores the given user and no user otherwise |
| Validation.ForUpdate | app/Http/Controllers/Api/UserController.php:46-50 | the relaxed list holds no `required`; every uniqueness rule in it ignores the given user; and it holds exactly the create list's other non-uniqueness rules |
| Validation.UpdateRulesRelaxCreateRules | app/Http/Controllers/Api/UserController.php:36-51 | the update table is the create table field by field, each list relaxed by `ForUpdate` for that user |
| Validation.Messages | app/Http/Controllers/Api/UserController.php:53-62 | the catalogue has six templates under distinct rule names |
| Validation.MessagesCoverRules | app/Http/Controllers/Api/UserController.php:53-62 | every rule the tables use has a template; the `max` and `min` templates carry their `:max` and `:min` placeholders; the `unique` template echoes `:input` |
| Controller.Store | app/Http/Controllers/Api/UserController.php:19-29 | the validator sees the sanitised request with the create rules and the catalogue; a non-empty error bag gives status 400 with that bag and creates nothing; otherwise the user is created from the sanitised data, which is clean, has distinct keys and has only keys of the request |

## Left out

- `index` and `User::paginate()`: pagination, the page size of 15 and the page metadata are computed by the ORM and the database.
- `Validator::make` semantics: how `required`, `max`, `min`, `email`, `unique` and `confirmed` are evaluated, and how placeholders are interpolated. This is library code. The validator is a function parameter of `Store`, and the private `validator` helper (lines 31-34) is inlined as that call with `Messages()`.
- `User::create`: persistence, password hashing and the database's uniqueness constraint. `Store` answers `Create(attributes)` with the attributes it would hand over.
- `strip_tags`: its HTML parsing is library behaviour, so it stays an uninterpreted parameter.
- HTTP responses and JSON encoding: a response is a status with an error bag, or the created attributes.
- PHP strings are byte strings; the model uses `seq<char>`. `trim` treats every character as a unit, which agrees with PHP for the default trim set, since it is all ASCII.
- PHP integers are 64-bit; the model uses unbounded `int`. The controller only copies integers, so no overflow can arise.
- Floats are kept as their IEEE-754 bit patterns and only copied. `empty()` treats both zeros, `0.0` and `-0.0`, as empty.
- The update table is returned by `getRules($user)`, but no action in this file calls it with a user. Its model is stated and related to the create table, but no operation here uses it.
- Sanitizer.SanitizedLookup, Sanitizer.SanitizedField, Sanitizer.SanitizedOrder: these require the input's keys to be distinct at the top level. A real PHP array always has distinct keys; a `seq` of pairs does not, so the requirement is stated.
- The nested-array test `!empty($value)` (line 75) looks at the original array, not its sanitised form, so `['a' => null]` survives as an empty array; see `Sanitizer.EmptiedNestedArrayIsKept`.
- PHP normalises a decimal-integer string key such as `"5"` to the integer key 5. The model takes keys as given, so a non-canonical `StrKey("5")` is representable; a request array built by PHP never holds one.
- Objects in the request, such as uploaded files, are one value `Obj` without contents: the sanitiser tests only that they are neither strings, arrays nor numbers, and drops them.
- `tests/Feature/Api/UserControllerTest.php` exercises only pagination through the HTTP and database harness, and holds no logic of the core.
