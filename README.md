# laravel-auto-translate: the translation pipeline, modelled in Dafny

`AutoTranslate` keeps the language files of a Laravel application in step
with a source language:

- it reads every translation domain (one PHP file per domain and language)
  through the language-file manager;
- it flattens the nested arrays to dotted keys with `Arr::dot`, and finds
  the keys that a target language lacks (`getMissingTranslations`), or lacks
  once out-of-date target files are ignored (`getUpdatedTranslations`);
- it sends each missing string to a translation backend, guarding
  `:placeholder` tokens (`findVariables`, `replaceTranslatedVariablesWithOld`);
- it rebuilds the nested arrays with `Arr::set` (`array_undot`) and hands them
  back to the manager, each value wrapped under the language
  (`fillLanguageFiles`).

The model has four modules.

- `PhpArrays` (`php_arrays.dfy`) models PHP arrays with string keys as ordered
  association lists with distinct keys. It covers assignment (`$a[$k] = $v`:
  overwrite in place or append), `array_merge`, `array_diff` and `Arr::only`.
- `DotNotation` (`dot_notation.dfy`) models Laravel's `Arr::dot` and `Arr::set`
  as the library behaves: empty arrays are leaves, and later writes overwrite
  whatever an earlier one left on the path. It also has `explode`/`implode`
  on dots, and the leaves of a tree as paths. Its main theorem is the round
  trip: undotting what `Arr::dot` produced rebuilds the tree.
- `Placeholders` (`placeholders.dfy`) models the regular expression `/:\S+/`
  as a scan that cuts a string into skipped characters and maximal tokens.
  `WellLexed` characterises that scan independently, and the scan is proved
  to be the only well-lexed cut of a string. `replaceTranslatedVariablesWithOld`
  is an imperative loop that consumes the queue of source tokens. It is
  proved equal to `Restore`, the substitution of the k-th token by the k-th
  queued value.
- `AutoTranslate` (`auto_translate.dfy`) models the class itself. The
  gathering loops are methods with `continue` guards, proved against the fold
  `Gather`. The two differs are proved against `MissingEntries`. `translate`
  is a loop that overwrites the dotted array in place, counts callbacks and
  records what it sends to the backend; it is followed by `array_undot`.
  `fillLanguageFiles` records its calls to `fillKeys`.

The collaborators are inputs:

- The manager is a value `Manager(files, content, mtime)`: the file table
  `domain -> language -> path`, the array each path returns, and each path's
  modification time.
- The backend is a function `string -> string`.
- The callback is a flag. `Translate` returns the number of calls it would
  make.
- The configured source language is a parameter.

## Model

| member | source | states |
|---|---|---|
| PhpArrays.GetPut | src/AutoTranslate.php:39 | after `$a[$k] = $v`, reading `k` gives `v` and every other key reads as before |
| PhpArrays.PutAt | src/AutoTranslate.php:105 | assigning to a key already present overwrites its own position, so the dotted array keeps its order and length |
| PhpArrays.PutPut | src/AutoTranslate.php:115-117 | assigning the same key twice is the same as assigning the second value once |
| PhpArrays.ArrayDiff | src/AutoTranslate.php:92 | `array_diff` keeps exactly the keys of the first list that are absent from the second |
| PhpArrays.Only | src/AutoTranslate.php:94 | `only` keeps exactly the entries whose key is listed, with their values, as a subsequence of the array (source order) |
| PhpArrays.OnlyAll | src/AutoTranslate.php:94 | `only` with every key of the array returns the array unchanged |
| PhpArrays.ArrayDiffNone | src/AutoTranslate.php:92 | `array_diff` against an empty key list keeps the whole list |
| PhpArrays.KeysMerge | src/AutoTranslate.php:89 | the keys after `array_merge` (used by `Arr::dot`) are those of either operand |
| DotNotation.SplitJoin | src/AutoTranslate.php:165 | exploding an imploded path gives the path back when no segment holds a dot |
| DotNotation.JoinSplit | src/AutoTranslate.php:165 | imploding an exploded key gives the key back, for every key |
| DotNotation.DotIsJoinedLeaves | src/AutoTranslate.php:89 | for a tree whose keys hold no dot, `Arr::dot` lists every leaf once, depth first, under its path joined with dots |
| DotNotation.DotKeys | src/AutoTranslate.php:89-92 | the keys of `Arr::dot` are exactly the tree's dotted keys (`FlatKeys`), for every tree |
| DotNotation.FlatKeysMonotone | src/AutoTranslate.php:90 | a target whose entries all occur in a larger one has no dotted key the larger lacks |
| DotNotation.DotFlat | src/AutoTranslate.php:89 | a flat array whose values are all leaves is already in dot form |
| DotNotation.DotLeaves | src/AutoTranslate.php:101 | every value `Arr::dot` yields is a leaf (string, null or empty array), for every tree |
| DotNotation.GetSetPath | src/AutoTranslate.php:165 | `Arr::set` stores its value where the same path finds it, whatever was on the path before |
| DotNotation.GetSetPathOther | src/AutoTranslate.php:165 | `Arr::set` leaves every path under another top-level key unchanged |
| DotNotation.GetSetPathSibling | src/AutoTranslate.php:165 | `Arr::set` leaves every path that parts from its own at any depth as it was: siblings keep their values at every level, whether or not the tree held arrays along the way |
| DotNotation.UndotLast | src/AutoTranslate.php:164-166 | in `array_undot` the last entry written under a dotted key wins |
| DotNotation.UndotDot | src/AutoTranslate.php:124 | round trip: `array_undot(Arr::dot(T)) == T`, order included, for trees whose keys hold no dot |
| DotNotation.UndotMapDot | src/AutoTranslate.php:101-124 | rewriting every dotted value with a leaf-to-leaf function and undotting gives the tree with each leaf rewritten and its shape kept |
| DotNotation.DotPrune | src/AutoTranslate.php:94 | `only` on the dotted tree is the dot form of the tree pruned to the listed leaves, which is again an array with dot-free keys |
| Placeholders.RunLengthMaximal | src/AutoTranslate.php:132 | `\S+` is greedy: the run holds no whitespace and stops at whitespace or at the end |
| Placeholders.FindVariables | src/AutoTranslate.php:127-136 | every match has the shape of `:\S+` (a colon, then at least one non-space character) |
| Placeholders.ScanConcat | src/AutoTranslate.php:132 | the matches and skipped characters spell the string back, with nothing lost or added |
| Placeholders.ScanWellLexed | src/AutoTranslate.php:132 | each match ends at whitespace or at the end, and no skipped colon could have started a match |
| Placeholders.ScanOfWellLexed | src/AutoTranslate.php:132 | the scan is the only well-lexed cut: rescanning any well-lexed sequence of pieces gives those pieces |
| Placeholders.SubstAt | src/AutoTranslate.php:143-145 | characters stay in place, and the k-th match becomes the k-th queued token, or `""` once the queue is exhausted |
| Placeholders.SubstLength | src/AutoTranslate.php:143-145 | substitution keeps the number of pieces |
| Placeholders.RestoreOwnTokens | src/AutoTranslate.php:138-147 | giving a string its own matches back leaves it unchanged |
| Placeholders.RestoreTokens | src/AutoTranslate.php:138-147 | with at least as many source tokens as matches, the result's matches are the first source tokens, in order; extra source tokens go unused |
| Placeholders.MatchEnd | src/AutoTranslate.php:143 | the end of a match is the first whitespace after the colon, or the end of the string |
| Placeholders.ReplaceTranslatedVariablesWithOld | src/AutoTranslate.php:138-147 | no match list gives null; otherwise the loop that shifts the queue returns exactly `Restore(queue, text)` |
| Placeholders.PlainText | src/AutoTranslate.php:143-145 | text without a colon has no match and is returned unchanged |
| Placeholders.SegmentTokens | src/AutoTranslate.php:132 | plain text, a token and whitespace-led rest: the token is matched whole, before the matches of the rest |
| Placeholders.SegmentRestore | src/AutoTranslate.php:143-145 | such a token takes the head of the queue and the rest is restored from the tail |
| Placeholders.TwoSegments | src/AutoTranslate.php:127-147 | two tokens separated by whitespace-led text are both matched and take the first two queued values |
| Placeholders.GreedyExample | src/AutoTranslate.php:132 | `findVariables("Hi :name, bye")` is `[":name,"]`: the comma belongs to the match |
| Placeholders.HelloTokens | src/AutoTranslate.php:132 | `findVariables("Hello :name")` is `[":name"]` |
| Placeholders.BonjourRestore | src/AutoTranslate.php:143-145 | restoring `[":name"]` into `"Bonjour :X"` gives `"Bonjour :name"` |
| Placeholders.FidelityTokens | src/AutoTranslate.php:132 | `"Hello :name, you have :count items"` has the matches `":name,"` and `":count"` |
| Placeholders.FidelityRestore | src/AutoTranslate.php:143-145 | restoring those into `"Bonjour :X, vous avez :Y articles"` gives `"Bonjour :name, vous avez :count articles"` |
| Placeholders.FidelityWithoutComma | src/AutoTranslate.php:143-145 | restoring `[":name", ":count"]` instead drops the comma, because the whole match `":X,"` is replaced |
| AutoTranslate.GatherGet | src/AutoTranslate.php:32-40 | each domain in the gathered array holds its file's contents for the language, and exactly the admitted domains are present |
| AutoTranslate.GetTranslations | src/AutoTranslate.php:26-43 | the loop with its `isset` guard returns exactly `TranslationsOf(m, lang)`, whose lookups `GatherGet` describes |
| AutoTranslate.GetSourceTranslations | src/AutoTranslate.php:21-24 | it is `getTranslations` of the source language |
| AutoTranslate.GatherWithin | src/AutoTranslate.php:52-74 | every domain the up-to-date loop keeps is in `getTranslations(lang)`, with the same contents |
| AutoTranslate.GatherAllAdmitted | src/AutoTranslate.php:55-69 | when every domain with a target file passes both guards, the guards change nothing |
| AutoTranslate.GatherNoneAdmitted | src/AutoTranslate.php:55-69 | when no domain passes the guards, no target content is gathered |
| AutoTranslate.MissingEntries | src/AutoTranslate.php:89-94 | an entry is missing iff it is a dotted source entry whose key is not a dotted key of the target (a `""` target value still counts as present); source order and values are kept |
| AutoTranslate.GetMissingTranslations | src/AutoTranslate.php:84-95 | returns `MissingEntries` of the source and target translations |
| AutoTranslate.GetUpdatedTranslations | src/AutoTranslate.php:45-82 | returns `MissingEntries` against only those target files that exist, have a source file and are no older than it |
| AutoTranslate.MissingFromEmptyTarget | src/AutoTranslate.php:89-94 | against an empty target every dotted source entry is missing |
| AutoTranslate.MissingFromEmptySource | src/AutoTranslate.php:89-94 | an empty source has nothing missing |
| AutoTranslate.MissingFromItself | src/AutoTranslate.php:89-94 | a target equal to the source, empty arrays included, has nothing missing |
| AutoTranslate.MissingAntitone | src/AutoTranslate.php:90-92 | a smaller target leaves at least as many entries missing |
| AutoTranslate.UpdatedCoversMissing | src/AutoTranslate.php:45-95 | every entry `getMissingTranslations` reports, `getUpdatedTranslations` reports too |
| AutoTranslate.UpdatedIsMissingWhenUpToDate | src/AutoTranslate.php:67-73 | when every target file has a source file no newer than it, the two differs agree |
| AutoTranslate.UpdatedAllWhenStale | src/AutoTranslate.php:55-69 | when no target file passes the guards, every dotted source entry is reported |
| AutoTranslate.StaleDomainMissing | src/AutoTranslate.php:52-81 | a single domain with no target file, no source file, or a source file newer than its target file has every dotted source entry under it reported, whatever the other domains hold |
| AutoTranslate.FindVariablesOf | src/AutoTranslate.php:127-136 | there is a match list exactly for string values |
| AutoTranslate.TranslateValueLeaf | src/AutoTranslate.php:113-117 | a translated value is a string or null, so leaves stay leaves |
| AutoTranslate.TranslateKeepsPlaceholders | src/AutoTranslate.php:113-117 | when the backend returns as many matches as it got, the stored string has exactly the source's matches, in order |
| AutoTranslate.TranslateIdentity | src/AutoTranslate.php:113-117 | with a backend that returns its input, a string value is stored unchanged |
| AutoTranslate.TranslateDotted | src/AutoTranslate.php:103-122 | translating in place keeps every dotted key and their order |
| AutoTranslate.SentTexts | src/AutoTranslate.php:104-115 | the backend receives every non-empty string value and nothing else |
| AutoTranslate.ArrayUndot | src/AutoTranslate.php:162-169 | the loop of `Arr::set` calls returns `Undot(dottedArray, initialArray)` |
| AutoTranslate.Translate | src/AutoTranslate.php:97-125 | the result is the undotted, translated dot form; the texts sent are `Sent` of the dot form; the callback fires once per dotted entry |
| AutoTranslate.TranslateTree | src/AutoTranslate.php:101-124 | for a tree with dot-free keys the result has the tree's shape, with each leaf translated on its own |
| AutoTranslate.TranslateFlatKeys | src/AutoTranslate.php:101-124 | for such a tree, flattening the result gives the translated dotted entries, so the flat keys are the input's |
| AutoTranslate.TranslateMissing | src/AutoTranslate.php:84-125 | translating the missing entries yields the source tree pruned to the missing keys with each leaf translated, and its dot form is the translated missing entries |
| AutoTranslate.GreetingValue | src/AutoTranslate.php:113-117 | `"Hello :name"` with a backend answering `"Bonjour :X"` is stored as `"Bonjour :name"` |
| AutoTranslate.GreetingScenario | src/AutoTranslate.php:97-125 | the tree `greeting => [hi => "Hello :name"]` comes back as `greeting => [hi => "Bonjour :name"]` |
| AutoTranslate.WrapAll | src/AutoTranslate.php:152-156 | the wrapped array has the same keys in the same order |
| AutoTranslate.UnwrapWrapAll | src/AutoTranslate.php:152-156 | each wrapped value is `[language => item]` holding exactly the original item |
| AutoTranslate.FillPlan | src/AutoTranslate.php:149-160 | one `fillKeys` call per domain, in order, with the domain's wrapped translations; the loop completes iff every domain value is an array, and otherwise stops at the first one that is not |
| AutoTranslate.FillPlanStops | src/AutoTranslate.php:151-159 | the number of calls is the position of the first domain value that is not an array |
| AutoTranslate.FillLanguageFiles | src/AutoTranslate.php:149-160 | the loop records exactly the calls and completion `FillPlan` describes |
| AutoTranslate.EmptyDomainStopsFill | src/AutoTranslate.php:84-160 | for a target with no files, a source domain whose file is `[]` comes back from `translate` as null, and `fillLanguageFiles` stops at it without completing |
| AutoTranslate.KeptDiffersOnArrays | src/AutoTranslate.php:113-117 | the corrected value function differs from the code as written exactly on arrays: strings are translated the same way, null stays null, and an array is kept where the code stores null |
| AutoTranslate.KeptDomainsFill | src/AutoTranslate.php:97-160 | with values that are not strings kept, every domain of a tree of domain arrays comes back as an array, and `fillLanguageFiles` writes all of them |

## Edge behaviour of the code

- **Empty arrays.** `Arr::dot` keeps an empty nested array as a leaf under its
  dotted key. An empty domain or sub-array in the source is therefore a
  dotted entry of its own. It is missing when the target has no dotted key
  equal to it (`MissingEntries`), so a target holding an empty array or a
  leaf under that key has it (`MissingFromItself`). When it is missing, `translate` turns it into
  null (`DotLeaves`, `TranslateValue`). See "## Findings" for where that
  leads.
- **Values that are not strings.** Line 115 keeps such a value (`: $value`),
  but `findVariables` returned null for it, so `replaceTranslatedVariablesWithOld`
  falls off its end and the stored value is null (`TranslateValueLeaf`).
- **Excess placeholders.** When a translation has more matches than the source
  had tokens, each excess match is replaced by the empty string. `array_shift`
  on an empty queue gives null, which becomes `""` (`SubstAt`).
- **Malformed keys.** No key is rejected. A key with an empty segment
  (`"a..b"`) is split into the path `["a", "", "b"]` and set like any other
  (`Split`, `SetPath`).
- **Greedy placeholders.** The match `/:\S+/` runs up to the next whitespace,
  so punctuation after a placeholder belongs to it.
  - `"Hello :name, you have :count items"` has the matches `":name,"` and
    `":count"`. Restoring them into `"Bonjour :X, vous avez :Y articles"`
    gives `"Bonjour :name, vous avez :count articles"`, comma kept
    (`FidelityTokens`, `FidelityRestore`).
  - Restoring `[":name", ":count"]` into the same translation drops the comma,
    because the whole match `":X,"` is replaced (`FidelityWithoutComma`).
- **Round trip.** `array_undot(Arr::dot(T)) == T` holds only when no key of
  `T` contains a dot (`UndotDot`). A key with a dot is split by `Arr::set`
  into a deeper path.

## Findings

| source | as written | input that shows it | evidently intended | confidence | as-written member | corrected member |
|---|---|---|---|---|---|---|
| src/AutoTranslate.php:113-117 | a value that is not a string (here an empty domain array) gets a null match list, so `replaceTranslatedVariablesWithOld` returns null and the value is stored as null; `fillLanguageFiles` then hands null to `array_map` (:152), which throws after the earlier domains were written | a source domain whose file returns `[]`, translated into a language that has no files yet | line 115 keeps the value as it is (`: $value`), so every domain comes back as an array and every domain is written | not executed | AutoTranslate.EmptyDomainStopsFill | AutoTranslate.KeptDomainsFill |

The rest of the model keeps the code as written (`TranslateValue`); the
corrected value function `TranslateValueKept` is used by `KeptDomainsFill`.

## Left out

- Integer-like keys: PHP renumbers them in `array_merge` and casts numeric string keys to integers; every key is a string here.
- Scalar values other than strings and null (integers, booleans) in translation files are not modelled; `Value` is a string, null or an array.
- The language-file manager (Langman) internals are not modelled: file listing and reading are the `Manager` value, and `fillKeys` is recorded as a list of calls, because writing files and merging into them happens outside this class.
- The translation backend is not modelled beyond a function `string -> string`: `setSource` in the constructor (:18) and `setTarget` (:99) only configure it, and its failures and exceptions are not modelled, because the backend is an external HTTP service.
- `config('auto-translate.source_language')` is a parameter, because configuration is read from the environment.
- `filemtime` is an integer per path in `Manager.mtime`, because the filesystem is outside the model.
- The PCRE engine is not modelled: `\S` is "not one of space, tab, line feed, vertical tab, form feed, carriage return" over characters, without the `u` flag or Unicode whitespace.
- The constructor (:14-19) is not modelled: it only stores the collaborators and calls `setSource`.
- The callback's effects are not modelled, only how many times it fires. The order in which backend calls and callbacks interleave is not recorded; `Translate` returns the sent texts and the callback count separately.
- Laravel `Collection` objects returned by `collect(...)->only(...)` are modelled as the arrays they wrap.
- FillLanguageFiles: the `TypeError` that `array_map` throws on a domain value that is not an array is modelled as stopping with `completed == false`; exception propagation itself is not modelled.
- StaleDomainMissing: stated only when no domain name holds a dot, because a domain `"a.b"` in the target would cover the key `b` of a source domain `a`.
- EmptyDomainStopsFill, KeptDomainsFill: stated for a target language with no files yet and a source whose keys hold no dot; with an existing target the reported tree is the pruned one `TranslateMissing` describes.
- UndotDot, UndotMapDot, DotPrune, DotIsJoinedLeaves, TranslateTree, TranslateFlatKeys, TranslateMissing: stated only for trees whose keys hold no dot, because `Arr::set` splits such keys into deeper paths and the shape is not kept.
- TranslateKeepsPlaceholders: stated only when the backend returns as many matches as the source had; with fewer, `RestoreTokens` gives the prefix, and with more, `SubstAt` gives the `""` replacements.
- The property that running the missing-only workflow twice finds nothing the second time is not modelled, because it depends on how `fillKeys` merges keys into existing files.
- `src/Commands/UpdatedCommand.php` (console prompts, path discovery, progress output) is not part of this model.
