# CSV row grouping: a Dafny model of the Matcher and the Engine

The program reads a CSV file and writes a copy in which every row is preceded
by a group id. Rows that share an identifying value, an email address or a
phone number, get the same id. This project models the two classes that do
the work, and proves properties of the model.

- The **Matcher** (`matcher.rb`) checks the matching configuration. A
  matcher type is `email`, `phone` or `email_or_phone`, and every field name
  is mapped to a type. Field names are lower-cased with `transform_keys!`.
  Field types are normalized and validated with `transform_values!`.
- The Matcher also turns a row's identifying fields into an ordered list of
  keys:
  - `email`: strip, then lower-case.
  - `phone`: keep the digits only.
  - `email_or_phone` (composite): each field uses the rule of its own
    configured type.
- The **Engine** (`engine.rb`) walks the rows. It writes the header row
  behind `UUID`. For each data row it:
  - picks the row's identifying columns with `row.to_h.slice(*field_names)`;
  - normalizes them into keys;
  - takes the id stored for the first key already known, or mints a new id;
  - stores every key of the row that is neither blank nor known, under that
    id.

Modules, one per file:

- `Results` (results.dfy) defines `Option` and `Result`. A Ruby `nil` becomes
  `None`; a `raise` becomes `Failure`.
- `Text` (text.dfy) holds the ASCII string primitives: `String#strip`,
  `String#downcase`, `gsub(/\D/, "")` and `blank?`.
- `RubyHash` (ruby_hash.dfy) models an insertion-ordered Ruby `Hash`, as a
  key sequence plus a map, with `transform_keys!` and `transform_values!`.
  Each of the two is a loop, proved against a specification function.
- `Matching` (matcher.dfy) models `Matcher`:
  - The constructor is the method `NewMatcher`, proved equal to the function
    `Configure`.
  - A matcher never changes after it is built, so it is a datatype.
- `Grouping` (engine.dfy) models `Engine` as a class:
  - Fields: the value store, the count of minted ids and the row counter.
  - Its methods mirror the Ruby methods.
  - `TrackValues` and `Run` are proved against the functions `Track` and
    `Label`. The lemmas about those functions state what grouping
    guarantees.

## Model

| member | source | states |
|---|---|---|
| Text.Blank | engine.rb:80 | blank?: the string is empty or made of whitespace only; BlankStripsToEmpty and NormalizeForType relate it to the keys |
| Text.Strip | matcher.rb:78 | strip: lstrip, then rstrip; TrimStartSpec, TrimEndSpec and StripIsInnerSlice state what each end loses |
| Text.TrimStartSpec | matcher.rb:78 | lstrip removes exactly the leading run of NUL and whitespace characters and keeps the rest unchanged |
| Text.TrimEndSpec | matcher.rb:78 | rstrip removes exactly the trailing run of NUL and whitespace characters and keeps the rest unchanged |
| Text.StripIsInnerSlice | matcher.rb:78 | strip returns a contiguous slice of its input; everything cut at either end is whitespace or NUL, and the result neither starts nor ends with one |
| Text.StripPadded | matcher.rb:78 | stripping a string padded with whitespace or NUL gives back the string |
| Text.StripIdempotent | matcher.rb:78 | stripping twice is stripping once |
| Text.BlankStripsToEmpty | matcher.rb:78 | a string made of whitespace only strips to the empty string |
| Text.Downcase | matcher.rb:78 | downcase on ASCII: every character lower-cased in place, as DowncaseSpec states |
| Text.Lower | matcher.rb:78 | one character lower-cased is never an upper-case letter; an upper-case letter becomes a lower-case one, and any other character is left alone |
| Text.DowncaseSpec | matcher.rb:78 | downcase keeps the length and lower-cases each character in place |
| Text.DowncaseIsLowerCase | matcher.rb:78 | downcase leaves no upper-case letter, and it changes nothing exactly when the input has no upper-case letter |
| Text.DowncaseIdempotent | matcher.rb:78 | lower-casing twice is lower-casing once |
| Text.StripDowncase | matcher.rb:78 | strip and downcase commute |
| Text.Digits | matcher.rb:82 | gsub(/\D/, "") is no longer than its input and holds digits only |
| Text.DigitsAppend | matcher.rb:82 | removing non-digits distributes over concatenation |
| Text.DigitsOfChar | matcher.rb:82 | a single character survives exactly when it is a digit |
| Text.DigitsKeepsDigitString | matcher.rb:82 | a string of digits is left unchanged |
| Text.DigitsIdempotent | matcher.rb:82 | removing non-digits twice is removing them once |
| RubyHash.DeleteKeepsValid | matcher.rb:33 | deleting a key keeps the hash well formed: keys distinct, key list and map in agreement |
| RubyHash.StoreKeepsValid | matcher.rb:33 | assigning a key keeps the hash well formed |
| RubyHash.ImageSetMembers | matcher.rb:33 | the set of new keys after n entries is exactly the images of the first n keys |
| RubyHash.LastValueIsLast | matcher.rb:33 | the value a new key ends up with comes from the last entry whose key maps to it |
| RubyHash.TransformKeysSpec | matcher.rb:33 | after transform_keys! the hash is well formed; its keys are exactly the images of the old keys, and each holds the value of the last entry that maps to it |
| RubyHash.TransformKeysInOrder | matcher.rb:33 | when no two keys share an image and the block fixes images, transform_keys! keeps the entry order and maps each key |
| RubyHash.TransformKeysKeepsValues | matcher.rb:33 | when no two keys share an image, every value moves to its key's image |
| RubyHash.RekeyEntry | matcher.rb:33 | one turn of the transform_keys! loop: delete the old key unless an earlier turn produced it, then store the value under the new key; the state after the turn is the specification's state after one more entry |
| RubyHash.TransformKeysInPlace | matcher.rb:33 | the in-place loop (delete the old key unless it is already a new key, then store the new one) ends in TransformKeys |
| RubyHash.TransformValuesSpec | matcher.rb:34-39 | transform_values! raises exactly when the block rejects some value; otherwise the keys and their order stay and each value is mapped |
| RubyHash.TransformValuesInPlace | matcher.rb:34-39 | the in-place loop, stopping at the first rejected value, ends in TransformValues |
| RubyHash.TransformKeysThenValues | matcher.rb:33-39 | transform_keys! then transform_values! raises exactly when the block rejects the last value that reached some new key |
| Matching.TypeName | matcher.rb:11-18 | the name of each matcher type is one of the valid type names |
| Matching.IsValidMatcherType | matcher.rb:20-22 | valid_matcher_type?: membership in the three names email, phone and email_or_phone; ParseMatcherType shows these are exactly the names of the three types |
| Matching.ParseMatcherType | matcher.rb:20-22 | a string names a matcher type exactly when it is one of the three valid names, and the type's name is that string |
| Matching.NormalizeMatcherType | matcher.rb:24-26 | normalize_matcher_type: strip, then lower-case; the next two lemmas state what that ignores and that it is idempotent |
| Matching.NormalizeMatcherTypeIgnoresPadding | matcher.rb:24-26 | surrounding whitespace does not change the type a string names; only its lower-cased core counts |
| Matching.NormalizeMatcherTypeIdempotent | matcher.rb:24-26 | normalizing a type name twice is normalizing it once |
| Matching.FieldType | matcher.rb:34-39 | the transform_values! block gives a type exactly when the normalized raw type is valid, and that type's name is the normalized string |
| Matching.Configure | matcher.rb:28-40 | what Matcher.new returns or raises: the normalized match_as must be valid, the field names are lower-cased, each field type is normalized and checked; the lemmas below state the outcome |
| Matching.NewMatcher | matcher.rb:28-40 | construction checks the normalized matcher type, lower-cases the field names, then normalizes and checks every field type; the result is Configure |
| Matching.ConfigureFails | matcher.rb:28-40 | construction raises exactly when the normalized match_as is invalid, or when the last raw type reaching some lower-cased field name is invalid |
| Matching.ConfigureFailsOnlyOnInvalidType | matcher.rb:28-40 | with a valid match_as, a construction that raises has some lower-cased field name whose last raw type is invalid |
| Matching.ConfigureFailsOnInvalidType | matcher.rb:28-40 | a lower-cased field name whose last raw type is invalid makes construction raise |
| Matching.DowncasedKeysAreLowerCase | matcher.rb:33 | after transform_keys!(&:downcase) every field name is lower-case |
| Matching.ConfigureFieldNames | matcher.rb:33-44 | a matcher that is built holds exactly the lower-cased configured field names, each once, all lower-case |
| Matching.ConfigureFieldTypes | matcher.rb:29-39 | a matcher that is built has the type named by the normalized match_as; each field holds the normalized type of the last field that lower-cases to it, and that type is valid |
| Matching.ConfigureKeepsFields | matcher.rb:33-44 | when no two field names differ only in case, field_names keeps the configured order lower-cased, and each field's type is its configured type |
| Matching.FieldNames | matcher.rb:42-44 | field_names: the keys of the field hash in insertion order, each once |
| Matching.MatcherTypeForField | matcher.rb:73-75 | matcher_type_for_field: a field has a type exactly when it is one of the field names, and nil otherwise |
| Matching.NormalizeEmail | matcher.rb:77-79 | normalize_email: strip, then lower-case; the next three lemmas state its properties |
| Matching.NormalizeEmailShape | matcher.rb:77-79 | an email key is lower-case and neither starts nor ends with whitespace or NUL |
| Matching.NormalizeEmailIgnoresPadding | matcher.rb:77-79 | an address padded with whitespace gives the same key as the lower-cased address |
| Matching.NormalizeEmailIdempotent | matcher.rb:77-79 | normalizing an email key again leaves it unchanged |
| Matching.NormalizePhone | matcher.rb:81-83 | a phone key holds digits only and is no longer than the value |
| Matching.NormalizePhoneKeepsDigitsInOrder | matcher.rb:81-83 | a non-digit anywhere in the value is dropped; a digit stays in place between the keys of its two sides |
| Matching.NormalizePhoneIdempotent | matcher.rb:81-83 | normalizing a phone key again leaves it unchanged |
| Matching.NormalizeForType | matcher.rb:61-71 | normalize_for_type raises exactly for email_or_phone, the else branch; the email and phone rules never give a key of whitespace only, so a key is blank exactly when it is empty |
| Matching.NormalizeField | matcher.rb:47-56 | the normalize block for one field raises exactly when the matcher is email_or_phone and the field's type is missing or is email_or_phone itself; a key it gives is blank only when it is empty |
| Matching.Normalize | matcher.rb:46-57 | normalize succeeds exactly when every field normalizes; then it gives one key per field, in field order |
| Matching.NormalizeSingleRule | matcher.rb:46-71 | an email or phone matcher applies its own rule to every value, whatever the field name, and never raises |
| Matching.NormalizeComposite | matcher.rb:46-75 | in email_or_phone mode, normalize raises exactly when some field has no type or is typed email_or_phone; otherwise each field uses its own type's rule |
| Grouping.MintId | engine.rb:57-60 | the n-th new id: a non-empty lower-case hexadecimal numeral, the alphabet SecureRandom.hex draws from |
| Grouping.IdNumberOfMintId | engine.rb:57-60 | reading back the n-th minted id gives n |
| Grouping.MintIdInjective | engine.rb:57-60 | two minted ids are equal exactly when they were minted at the same count, so a new id is never one handed out before |
| Grouping.FirstStored | engine.rb:77 | find returns the first key, in order, that is in the store; none is returned exactly when no key is stored |
| Grouping.StoreKeys | engine.rb:79-81 | the store after the each loop: every key, in order, stored under the row's id unless it is blank or already stored; the next three lemmas state what that changes |
| Grouping.StoreKeysKeepsEntries | engine.rb:79-81 | storing a row's keys never changes or removes an existing entry |
| Grouping.StoreKeysAddsOnlyKeys | engine.rb:79-81 | every new entry is a non-blank key of the row, stored under the row's id |
| Grouping.StoreKeysStoresAll | engine.rb:79-81 | every non-blank key of the row is stored afterwards |
| Grouping.Track | engine.rb:74-83 | track_values on a row's keys, as a function giving the id and the new state; the lemmas below state what it guarantees |
| Grouping.TrackFirstMatchWins | engine.rb:74-83 | a row's id is the stored id of its first key already known; when none is known, it is a fresh id that no entry holds |
| Grouping.TrackKeepsEntries | engine.rb:74-83 | the store only grows and existing entries keep their ids, so groups are never merged |
| Grouping.TrackStoresRowKeys | engine.rb:79-81 | afterwards every non-blank key is stored; the keys that are new hold the row's id; nothing else is added |
| Grouping.TrackKeepsCoherent | engine.rb:74-83 | no blank key is ever stored, and every stored id was minted before |
| Grouping.BlankRowGetsFreshId | engine.rb:77-80 | a row whose keys are all blank leaves the store unchanged and gets a fresh id |
| Grouping.BlankRowsNeverGroup | engine.rb:77-80 | two all-blank rows in a row get different ids |
| Grouping.TrackOneKey | engine.rb:74-83 | a single-key row joins its key's group, or starts one and stores the key unless it is blank |
| Grouping.ConvertHeader | engine.rb:22 | the :downcase header converter applied to every header name; ConvertHeaderSpec states it |
| Grouping.RowValues | engine.rb:29 | row.to_h.slice(*field_names): the field names paired with their cells; RowValuesInFieldOrder states which and in what order |
| Grouping.ColumnOf | engine.rb:29 | row.to_h takes each header's value from the first column bearing it; a name that is no header has none |
| Grouping.RowFields | engine.rb:33 | row.fields: the row padded with empty cells to the header's width; RowFieldsSpec states it |
| Grouping.RowFieldsSpec | engine.rb:33 | row.fields is the row padded with empty cells to the header's width, and each cell agrees with the one the matcher reads |
| Grouping.ConvertHeaderSpec | engine.rb:22 | the `:downcase` converter lower-cases every header name in place, keeping the column count |
| Grouping.Present | engine.rb:29 | the names slice keeps are exactly the field names that are headers, no more of them than field names |
| Grouping.PresentAll | engine.rb:29 | when every field name is a header, slice keeps all of them |
| Grouping.RowValuesInFieldOrder | engine.rb:29 | the sliced values come one per field name that is a header, in field-name order, each from that header's first column; names missing from the header are skipped |
| Grouping.OnlyNamedColumnsMatter | engine.rb:29 | two rows that agree on the matcher's columns give the same values, whatever the other columns hold |
| Grouping.Label | engine.rb:24-35 | the data rows labelled in order: their ids and the final state, or the error of the first row that raises; the next lemmas state what it gives |
| Grouping.LabelLength | engine.rb:24-35 | a successful run gives exactly one id per data row |
| Grouping.LabelSplit | engine.rb:24-35 | labelling the first i rows and then, from the state they leave, the rest is labelling all the rows: the same ids, the same final state, the same first error |
| Grouping.LabelIdAt | engine.rb:26-33 | in a successful run, the id of the i-th data row is the one track_values gives its keys in the state the rows before it leave |
| Grouping.LabelShape | engine.rb:18-37 | a successful run gives one id per data row and leaves the store coherent |
| Grouping.LabelThreeRows | engine.rb:18-37 | three data rows whose keys are known are labelled by tracking their keys in turn |
| Grouping.SameKeyThenOther | engine.rb:74-83 | starting empty, a key seen twice keeps its first id, and a different key after it gets another id |
| Grouping.EmailRowsGroup | engine.rb:18-37 | under an email matcher, two addresses with the same key share an id, and a third with another key gets a different one |
| Grouping.ExampleEmailRows | engine.rb:18-37 | the rows a@x.com, A@X.COM and b@x.com get ids x, x and y with x different from y |
| Grouping.EmailRowKey | matcher.rb:46-57 | a one-column row under an email matcher has a single key: its normalized address |
| Grouping.Engine.constructor | engine.rb:12-16 | a new engine keeps its file name, matcher and suffix, and starts with an empty store and no rows counted |
| Grouping.Engine.OutfileNameSpec | engine.rb:39-55 | the output name is the input name, a dot, and the given suffix (even an empty one), or "grouped" when none was given |
| Grouping.Engine.OutfileSuffix | engine.rb:53-55 | outfile_suffix: the suffix given, even an empty one, else "grouped"; OutfileNameSpec states it |
| Grouping.Engine.OutfileName | engine.rb:39-41 | outfile_name: the file name, a dot and the suffix; OutfileNameSpec states it |
| Grouping.Engine.CountRow | engine.rb:43-51 | counting a row adds one to rows_processed and changes nothing else |
| Grouping.Engine.NewId | engine.rb:57-60 | new_id hands out the next id of the id source |
| Grouping.Engine.StoreValue | engine.rb:66-68 | store_value sets one entry of the value store |
| Grouping.Engine.ValueInStore | engine.rb:70-72 | value_in_store?: the value is a key of the value store |
| Grouping.Engine.ValueId | engine.rb:85-87 | value_id gives nil exactly when the value is not in the store |
| Grouping.Engine.FindStored | engine.rb:70-77 | the find loop stops at the index FirstStored names |
| Grouping.Engine.StoreAll | engine.rb:79-81 | the each loop leaves the store StoreKeys describes |
| Grouping.Engine.TrackValues | engine.rb:74-87 | track_values raises, changing nothing, exactly when normalize raises; otherwise its id and new state are those of Track, and the state stays coherent |
| Grouping.Engine.ProcessRow | engine.rb:27-33 | one data row of run!: it is counted; if track_values raises, labelling the rows from this one on fails; otherwise the id and the state after it are those Label gives for the rows from this one on |
| Grouping.Engine.Run | engine.rb:18-37 | run! writes the header row behind UUID in the file's own spelling, then each data row padded and behind its id from Label, whose columns are looked up by the lower-cased header names; it counts every data row |

## Left out

- CSV reading and writing are not modelled. Rows arrive as a sequence of string sequences; the output is returned as one. The header-row check becomes "the first row".
- The `:downcase` header converter is modelled as ASCII lower-casing of each header name (ConvertHeader). Data rows are looked up by the converted names, and the header row is written in the file's own spelling, as `row.fields` of the header row gives it.
- CSV distinguishes nil (an empty cell) from "" (a quoted empty string). The model writes both as "", which is what `to_s` gives the matcher.
- The output file name is computed, but no file is opened.
- `SecureRandom.hex(10)` is replaced by a counter. The n-th id is n in lower-case hexadecimal, not 20 random hex digits. With a counter, freshness is a theorem; with random ids, uniqueness holds only with overwhelming probability.
- Strings are sequences of characters, and only ASCII is handled. Ruby's `downcase` also folds non-ASCII letters, and `[[:space:]]` in `blank?` also matches Unicode spaces. `strip` removes NUL and ASCII whitespace, as modelled.
- Matching.NewMatcher: Ruby's `transform_keys!` and `transform_values!` change the caller's hash. NewMatcher works on a copy, so that aliasing is not modelled. Neither is the half-transformed hash left behind when `transform_values!` raises part way through.
- RubyHash.TransformKeysInPlace follows the `transform_keys!` of Ruby 2.6 and later: walk a snapshot of the entries, delete each old key unless an earlier step produced it as a new key, store the new one. When two field names differ only in case, the order of the resulting keys depends on this algorithm. Only the key set and the values (last entry wins) are stated for that case; TransformKeysInOrder requires that no two names collide.
- Every `raise "Unknown matcher type!"` is a single error value, `UnknownMatcherType`, with no message or backtrace.
- Grouping.Engine.Run: when track_values raises, Run returns the failure. The ids of the earlier rows are not returned, and the rows-processed count at that point (the failing row included) is not stated.
- Memoization with `||=` (`@field_names`, `@value_store`, `@rows_processed`) is not modelled. Those values start as they would at their first use: the key list of the field hash, an empty store, 0.
- `command_line.rb` (option parsing and the program's entry point) is not part of this model.
- Concrete examples cover email grouping only (ExampleEmailRows). The other behaviours are stated as general lemmas. A literal matcher built with Configure("email", …) is not evaluated; EmailRowsGroup takes any matcher of type email with the single field `email`.
- The specification says each field of a composite matcher needs a concrete type, `email` or `phone`. The code also accepts `email_or_phone` as a field type in the field hash, because it is one of the three valid names, and raises only when such a field is normalized. The model follows the code: ConfigureFails accepts it, and NormalizeComposite raises on it.
