# KumbiaPHP request routing, modelled in Dafny

This project models two parts of how KumbiaPHP turns an HTTP request into a
controller call, and proves properties of that model.

* **The URL router** (`KumbiaRouter`, module `KumbiaRouter`).
  - `rewrite` splits a request path into an optional module, a controller, a
    controller path, an action and a list of parameters. It walks the `/`
    segments with the array cursor (`next`/`current`/`key`).
  - `_ifRouted` rewrites a path through the ordered alias table of the
    `routes` configuration section before that split. An exact key wins;
    otherwise the first `/*` catch-all or starred-prefix entry that fires
    decides; otherwise the path is kept.
* **The REST adapter** (`RestController`, module `Rest`).
  - `accept()` turns the Accept header into a preference list ordered by
    priority.
  - `initREST()` picks the output format from that list and the
    `_outputType` registry. It records the input content type. It then
    retargets the action to `<method>_<action>`, `getAll` or the bare HTTP
    method, and reshapes the parameters.
  - `param()` picks between a registered body parser from `_inputType` and
    the raw body.
  - `setCode()` maps a status code to its status line.

The PHP string builtins that these use live in module `PhpStrings`:
`explode`, `trim`/`rtrim` of one character, `strtolower`, `str_replace`,
`strpos`, `strripos` for a needle without case, `sprintf('%d')`, and PHP's
truthiness of strings.

The model follows the code in two places where one might expect something
else:

* A starred-prefix route replaces **every** occurrence of the prefix in the
  path, because `str_replace` replaces all of them, not just the leading
  one (`PrefixRuleReplacesEveryOccurrence`).
* In `initREST`, `array($action) + $this->parameters` is PHP's key-wise
  array union, not a prepend. The old action overwrites the first
  parameter, and that parameter is lost (`UnionOverwritesFirst`).

Representation choices:

* q-values are integer priorities (the q-value of section 5.3.1 of RFC 7231
  scaled by 1000). A q-value string is read by an abstract function
  `parseQ`.
* A directory check (`is_dir`) is the predicate parameter `isModule`.
* The reflection behind `actionExist` is a map from each declared method
  name to whether it is public.
* PHP `null` in `_fInput`/`_fOutput` is the empty string. Both are falsy,
  and `empty()` treats them alike.

## Model

| member | source | states |
|---|---|---|
| KumbiaRouter.UrlItems | core/kumbia/kumbia_router.php:38 | the segments are never empty as a list, no segment contains `/`, and joining them with `/` gives back the path trimmed of `/` at both ends |
| KumbiaRouter.WalkSegments | core/kumbia/kumbia_router.php:40-70 | the cursor walk over the segments consumes all of them, in order, none dropped. The module is set iff the first segment names a module directory. A lone module segment gives only the module and `<module>/index`. The controller is the segment at the cursor. Its path is `seg0/seg1` only when the module is truthy (a module named "0" is not). The action is the next segment, and parameters are all later segments, present only when non-empty |
| KumbiaRouter.Rewrite | core/kumbia/kumbia_router.php:29-71 | "/" gives the empty route. For any other path, module, controller, action and parameters together are exactly the segments of the path trimmed of `/`, so joining them with `/` gives back the trimmed path. The same positional facts as `WalkSegments` hold over those segments |
| KumbiaRouter.Lookup | core/kumbia/kumbia_router.php:85-86 | `isset($routes[$url])` is false iff no key equals the url. With unique keys the value returned is that key's value |
| KumbiaRouter.HasInnerStar | core/kumbia/kumbia_router.php:95 | `strripos($key, '*', -1)` is truthy iff some `*` of the key follows its first character |
| KumbiaRouter.RewriteEntry | core/kumbia/kumbia_router.php:91-99 | key `/*` gives the star-trimmed value followed by the url. Any other key fires iff its last `*` is at an index > 0 and the star-trimmed key is a prefix of the url. It then gives `str_replace(prefix, rtrim(val,'*'), url)`, which starts with the replacement whenever the prefix is non-empty |
| KumbiaRouter.FirstWildcard | core/kumbia/kumbia_router.php:90-101 | the loop yields nothing iff no entry of the table fires |
| KumbiaRouter.IfRouted | core/kumbia/kumbia_router.php:80-104 | over a table with distinct keys, as a PHP array has, an exact key returns its own value. With no exact key and no firing entry, the url comes back unchanged |
| KumbiaRouter.FirstWildcardAt | core/kumbia/kumbia_router.php:90-101 | the first entry that fires decides the loop's result, whatever later entries say |
| KumbiaRouter.FirstMatchWins | core/kumbia/kumbia_router.php:84-101 | with no exact key, `_ifRouted` returns the first firing entry's rewrite |
| KumbiaRouter.ExactKeyBeforeCatchAll | core/kumbia/kumbia_router.php:85-93 | an exact key wins even when a catch-all `/*` entry comes first in the table |
| KumbiaRouter.CatchAllPrepends | core/kumbia/kumbia_router.php:91-93 | the catch-all `/* => /app/*` puts `/app/` in front of any other url |
| KumbiaRouter.ReplaceAllExample | core/kumbia/kumbia_router.php:98 | `str_replace("/blog", "/news", "/blog/x/blog")` is `/news/x/news` |
| KumbiaRouter.PrefixRuleReplacesEveryOccurrence | core/kumbia/kumbia_router.php:95-99 | the rule `/blog* => /news*` rewrites `/blog/x/blog` to `/news/x/news`: every occurrence is replaced, not only the prefix |
| PhpStrings.Explode | core/kumbia/kumbia_router.php:38 | `explode` yields at least one piece, and no piece contains the separator |
| PhpStrings.JoinExplode | core/kumbia/kumbia_router.php:38 | joining the pieces of `explode` with the separator gives back the string |
| PhpStrings.ExplodeJoin | core/kumbia/kumbia_router.php:38 | exploding a join of separator-free pieces gives back the pieces, empty ones included |
| PhpStrings.ExplodeAppend | core/kumbia/kumbia_router.php:38 | exploding `a + sep + t`, where `a` has no separator, gives `a` followed by the pieces of `t` |
| PhpStrings.TrimLeft | core/kumbia/kumbia_router.php:38 | the result is a suffix, everything dropped is the trimmed character, and the result does not start with it |
| PhpStrings.TrimRight | core/kumbia/kumbia_router.php:92-98 | `rtrim`: the result is a prefix, everything dropped is the trimmed character, and the result does not end with it |
| PhpStrings.LeadingCount | core/kumbia/kumbia_router.php:38 | the count of leading trimmed characters: all of them are that character, and the next one is not |
| PhpStrings.TrailingCount | core/kumbia/kumbia_router.php:38 | the count of trailing trimmed characters: all of them are that character, and the one before is not |
| PhpStrings.TrimBothEnds | core/kumbia/kumbia_router.php:38 | trimming the front and then the back leaves an infix of the string, with only the trimmed character dropped after it |
| PhpStrings.Trim | core/kumbia/kumbia_router.php:38 | `trim`: the result is a contiguous slice, everything dropped at both ends is the trimmed character, and the result neither starts nor ends with it |
| PhpStrings.Truthy | core/kumbia/kumbia_router.php:53 | a string is truthy iff it has two or more characters, or one character other than `0` |
| PhpStrings.Empty | default/app/libs/rest_controller.php:86 | `empty()` holds for exactly `""` (and null) and `"0"` |
| PhpStrings.Lower | default/app/libs/rest_controller.php:93 | `strtolower`: same length, each character lowered, no upper-case letter left |
| PhpStrings.RemoveChar | default/app/libs/rest_controller.php:208 | `str_replace(' ', '', s)`: no space is left, every other character keeps its count, and a string without a space comes back unchanged |
| PhpStrings.RemoveCharAppend | default/app/libs/rest_controller.php:208 | removing spaces from a concatenation removes them from each part and keeps the parts in order, so the kept characters keep their order |
| PhpStrings.Find | default/app/libs/rest_controller.php:211-213 | `strpos`: the index of an occurrence of the needle with none before it, or nothing when there is none at all |
| PhpStrings.FindInPrefix | default/app/libs/rest_controller.php:213 | a needle that does not start in the first `j` positions is not found in the first `j` characters |
| PhpStrings.LastIndexOf | core/kumbia/kumbia_router.php:95 | the case-sensitive last index of a character, or nothing iff it does not occur. This equals `strripos` for a needle without case, such as the `*` the router searches for |
| PhpStrings.ReplaceAll | core/kumbia/kumbia_router.php:98 | `str_replace` with an empty needle returns the subject unchanged. A needle at the front is replaced at the front |
| PhpStrings.ReplaceAtFirst | core/kumbia/kumbia_router.php:98 | for every subject, when `strpos` finds the needle at `j`, `str_replace` keeps the first `j` characters, puts the replacement in place of the needle, and goes on replacing in what follows |
| PhpStrings.ReplaceAfterPrefix | core/kumbia/kumbia_router.php:98 | after a prefix in which no occurrence starts, the next occurrence is replaced and the scan resumes after it |
| PhpStrings.ReplaceWithoutOccurrence | core/kumbia/kumbia_router.php:98 | a needle that occurs nowhere in the subject leaves it unchanged |
| PhpStrings.ReplaceAtFront | core/kumbia/kumbia_router.php:98 | an occurrence at the front is replaced, and the scan resumes right after it |
| PhpStrings.ReplaceSkipsChar | core/kumbia/kumbia_router.php:98 | a character that does not start an occurrence is kept as it is |
| PhpStrings.ReplaceUpToTrailing | core/kumbia/kumbia_router.php:98 | with no occurrence starting inside `mid`, the occurrence at the end of `mid + p` is still replaced |
| PhpStrings.ReplaceBothEnds | core/kumbia/kumbia_router.php:98 | a needle at both the front and the end of the subject is replaced at both places |
| PhpStrings.ReplaceByItself | core/kumbia/kumbia_router.php:98 | replacing a string by itself changes nothing, so a rule `/x* => /x*` leaves the path as it is |
| Rest.Tokens | default/app/libs/rest_controller.php:208 | the header, without spaces and lowercased, is exactly the comma-join of the tokens, and no token has a comma |
| Rest.QField | default/app/libs/rest_controller.php:213 | the q-value text is what follows the first marker up to the next marker, or all of it when there is no further marker, and it holds no marker |
| Rest.ParseEntry | default/app/libs/rest_controller.php:210-214 | if `;q=` is found at a position > 0, the type is what precedes it and the priority is the parsed q-value. Otherwise the whole entry is the type, with priority 1 (1000) |
| Rest.IndexOfMime | default/app/libs/rest_controller.php:215 | the position of a key in the array, and no position iff the key is absent |
| Rest.Register | default/app/libs/rest_controller.php:215 | `$aTypes[$a] = $q`: the new entry is present and every other type keeps its entry. A known type keeps its position and takes the new priority; a new one is appended. The keys stay distinct |
| Rest.Collect | default/app/libs/rest_controller.php:209-216 | the array built by the loop has distinct types, exactly the types of the parsed entries |
| Rest.CollectLastWins | default/app/libs/rest_controller.php:215 | a repeated type ends up with the priority of its last entry |
| Rest.InsertByPriority | default/app/libs/rest_controller.php:218 | inserting adds exactly the one entry (multiset) |
| Rest.InsertKeepsOrder | default/app/libs/rest_controller.php:218 | inserting into a list sorted by non-increasing priority keeps it sorted |
| Rest.InsertKeepsUnique | default/app/libs/rest_controller.php:218 | inserting an entry of a new type keeps the types distinct |
| Rest.SortByPriority | default/app/libs/rest_controller.php:218 | `arsort` returns a permutation of its input (multiset) |
| Rest.SortIsOrdered | default/app/libs/rest_controller.php:217-218 | `arsort`'s result is ordered by non-increasing priority |
| Rest.SortKeepsMimes | default/app/libs/rest_controller.php:218 | sorting keeps the set of types, and keeps them distinct |
| Rest.Preferences | default/app/libs/rest_controller.php:204-220 | the list `accept()` returns is ordered by non-increasing priority, has distinct types, and is a permutation of the collected entries |
| Rest.Accept | default/app/libs/rest_controller.php:204-220 | the loop-and-sort computes the preference list. It is ordered by non-increasing priority, has distinct types, is a permutation of the collected entries, and its types are exactly those of the header's entries |
| Rest.OrJson | default/app/libs/rest_controller.php:86 | `empty($f) ? 'json' : $f` is never empty, and keeps a non-empty format |
| Rest.NegotiateOutput | default/app/libs/rest_controller.php:75-86 | the first accepted type registered in `_outputType` picks the format. With none registered the current format stays, and an empty one becomes `json`. With the default registry, an initially unset format ends in `{json, xml, csv}` |
| Rest.StatusTableRepeatsCode | default/app/libs/rest_controller.php:144-193 | every code in the table lies in 100..505, and its text starts with the code itself followed by a space |
| Rest.StatusLineRepeatsCode | default/app/libs/rest_controller.php:194-196 | the status line for a listed code prints the code twice, because the table text repeats it |
| PhpStrings.DecimalDigits | default/app/libs/rest_controller.php:195 | `sprintf('%d')` prints at least one digit, only digits, and no leading zero except for zero |
| PhpStrings.DecimalRoundTrip | default/app/libs/rest_controller.php:195 | reading back the digits `sprintf('%d')` prints gives the number |
| Rest.StatusLine | default/app/libs/rest_controller.php:143-197 | `setCode` emits nothing iff the code is not in the table. Otherwise it emits `HTTP/1.1 <n> <n> <reason>` |
| Rest.DefaultInputType | default/app/libs/rest_controller.php:31-37 | the default input registry has exactly the five listed types: JSON goes to the JSON parser, both XML types to the XML parser, CSV to the CSV parser, and form data to the form parser |
| Rest.ActionExist | default/app/libs/rest_controller.php:110-116 | a public method is an action under its own name; a name that matches no declared method, in any casing, is not an action; and an action needs a public method |
| Rest.ActionExistIgnoresCase | default/app/libs/rest_controller.php:111 | `method_exists` ignores case: a name and its lowered form are actions alike |
| Rest.ActionExistCaseless | default/app/libs/rest_controller.php:110-116 | a public method is found under any casing of its name, and what is found is a public method with the same lowered name |
| Rest.NoPublicMethodNoAction | default/app/libs/rest_controller.php:111-115 | a name whose declared methods, in every casing, are all non-public is not an action (`isPublic()` answers false) |
| Rest.KeyUnion | default/app/libs/rest_controller.php:101 | PHP `$a + $b` on lists: the length is the larger one, `a` wins on shared keys, and `b` supplies the rest |
| Rest.UnionOverwritesFirst | default/app/libs/rest_controller.php:101 | `array($action) + $p` with a non-empty `$p` is the action followed by `$p` without its first element. It is not a prepend |
| Rest.UnionWithNoParameters | default/app/libs/rest_controller.php:101 | with no parameters, the union is just the action |
| Rest.RetargetedIsUnique | default/app/libs/rest_controller.php:95-102 | the three branches leave exactly one new action and one parameter list, so `initREST` is deterministic in its action |
| Rest.IndexGetGoesToGetAll | default/app/libs/rest_controller.php:97-98 | a GET on `index` without a public `get_index` goes to `getAll` with the parameters untouched |
| Rest.RestController.constructor | default/app/libs/rest_controller.php:23-55 | a fresh controller has no input or output format, and has the given action, parameters and registries |
| Rest.RestController.InitREST | default/app/libs/rest_controller.php:71-103 | `_fInput` is the content type or "". `_fOutput` is as `NegotiateOutput` states, over the list `accept()` returns. The new action and parameters are `Retargeted` from the old ones: the public `<method>_<action>` becomes the action with the parameters untouched. Otherwise `index` with a method other than post becomes `getAll`. Otherwise the lowered method becomes the action, and a non-index action is merged into the parameters by key-wise union |
| Rest.RestController.RetargetAction | default/app/libs/rest_controller.php:92-102 | the formats are untouched, and the new action and parameters are `Retargeted` from the old ones: the public `<method>_<action>` becomes the action with the parameters untouched. Otherwise `index` with a method other than post becomes `getAll`. Otherwise the lowered method becomes the action, and a non-index action is merged into the parameters by key-wise union |
| Rest.RestController.Param | default/app/libs/rest_controller.php:126-137 | a registered, callable parser with a truthy result gives that result. An unregistered or non-callable entry, or a falsy result, gives the raw body |
| Rest.RestController.UnregisteredContentTypeIsRaw | default/app/libs/rest_controller.php:31-37 | with the default registry, a content type it does not list leaves the body raw |

## Left out

- core/kumbia/load.php is not part of this model. It is file inclusion and class loading, with no decision logic.
- `parseJSON`, `parseXML`, `parseCSV` and `parseForm` wrap `json_decode`, `SimpleXMLElement`, `fgetcsv` and `parse_str`. They are abstract functions that return a value or "falsy".
- The environment is read and written only through parameters, fields or nothing:
  - `$_SERVER['CONTENT_TYPE']` is the `contentType` option of `InitREST`.
  - `$_SERVER['HTTP_ACCEPT']` is the `acceptHeader` string. An absent header reads as "", as PHP's `null` does after `str_replace`.
  - `Router::get('method')` is `requestMethod`.
  - `php://input` is the `input` of `Param`.
  - `Config::read('routes')` is the table `t` of `IfRouted`.
  - `header()` is the value `StatusLine` returns.
  - `View::select` is not modelled. The selected view is `fOutput`.
- `is_dir` and `ReflectionMethod`/`method_exists` are replaced by the predicate `isModule` and the map `methods`.
- Rest.ParseEntry: the float parsing of q-values is left abstract (`parseQ`), with integer priorities. PHP's numeric comparison of the string `$q` against the integer 1 inside `arsort` is therefore not modelled.
- Rest.SortByPriority: the order of entries of equal priority depends on the PHP version's sort and is not promised. The model keeps them in list order, but no property relies on that.
- PHP array keys that look like integers (a media type or route key such as "10") are converted to integers by PHP, and PHP 8's loose `==`/`in_array` compares numeric strings as numbers. The model compares keys and names as plain strings.
- Rest.ActionExistCaseless: `strtolower` is taken as ASCII lowering. Locale-dependent case mapping is not modelled.
- KumbiaRouter.HasInnerStar: for the route key `""`, PHP 8's `strripos("", '*', -1)` throws a `ValueError` because the offset lies outside the empty string. The model instead treats that entry as not firing and goes on with the next one.
- The empty `initialize` and `finalize` hooks are not modelled. `initialize` only calls `initREST`.
