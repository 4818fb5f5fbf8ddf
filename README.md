# mykeychain in Dafny

A model of the core of `mykeychain.py`, a small console password store. Each user
account holds a master password, a map from resource names to records, and the
user's own categories. A record is a cipher text plus a category. The model covers:

- the substitution cipher `caesar_cipher`, over a charset given as a parameter;
- the checks of `create_account`;
- the three-attempt rule of `login`;
- the category catalogue: `get_categories`, the number resolution of
  `select_category`, and `create_new_category`;
- `add_password`, `update_password` and `delete_password`;
- the filter, sort, group and decrypt logic of `show_passwords_by_category`,
  `search_passwords` and `show_all_passwords`;
- `generate_password` with its random draws given as a parameter, and the answer
  handling of `generate_and_show_password`.

Every prompt becomes an argument: one call reads one answer per prompt.

Every operation is a function: of the table before it for the operations that change
the store (`AfterCreateAccount`, `AfterAdd`, `AfterUpdate`, `AfterDelete`,
`AfterNewCategory`), and of the table and the answers for the others (`LoginSpec`,
`Transform`, `ShowByCategory`, `SearchSpec`, `ShowAllSpec`, `ResolveChoice`,
`GeneratePassword`, `PasswordLength`, `Flag`, …). The lemmas are proved about these functions. The
operations that work by updating state or by looping also exist as imperative code,
each proved equal to its function:

- the class `Keychain.Store`, with a `users` map field that its methods
  `CreateAccount`, `Login`, `CreateNewCategory`, `AddPassword`, `UpdatePassword` and
  `DeletePassword` update;
- the loop methods `Cipher.CaesarCipher`, `Queries.CollectMatches` with
  `Queries.Search`, and `Queries.FileByCategory` and `Queries.ListGroups` with
  `Queries.ShowAll`.

`show_passwords_by_category`, `select_category`, `get_categories`,
`generate_password` and the answer handling of `generate_and_show_password` have
only the function form:

- `select_category` calls `create_new_category` for its S+C+1 choice
  (mykeychain.py:159), and that call appends a category and saves the table. The
  model's `SelectCategory` changes no state: its S+C+1 case returns `CreateNew`, and
  the append is `AfterNewCategory` and `Store.CreateNewCategory`.
- The comprehension of `show_passwords_by_category` (mykeychain.py:182) and its
  listing loop (190-193) become `InCategory`, `SortedKeys` and the `Listing`
  comprehension of `ByCategory`.
- The generator expression `for _ in range(length)` of `generate_password`
  (mykeychain.py:323) becomes the sequence comprehension of `Generator.Draw`, with
  the random draws as a parameter.
- The loops that print the menus (mykeychain.py:135-136, 141-142, 171-172) and the
  re-prompt loop of `select_category` (147-161) are left out.

Modules:

- `Text`: `str.strip`, `str.lower`, `str.isdigit`/`int`, and `in` on strings.
- `Ordering`: Python's string order, and the sorted listing of a set of keys.
- `Cipher`: `caesar_cipher` and the default charset.
- `Categories`: the built-in categories and the menu numbering.
- `Keychain`: records, accounts, the operations that change the user table, login.
- `Queries`: the three listings.
- `Generator`: the password generator and its answers.

Notes on the code:

- The default charset is the 94-character literal at mykeychain.py:11, with `!` at
  position 62.
- mykeychain_test.py:239-251 expect `add_password` to raise `InvalidInputError` and
  `ResourceExistsError`, which mykeychain.py never defines or raises. The code prints
  a message and returns with the table unchanged (mykeychain.py:357-362). The model
  returns an `Outcome` value and leaves the table as it was.
- The built-in categories are the ten Russian names at mykeychain.py:224-235.

## Model

| member | source | states |
|---|---|---|
| Text.Strip | mykeychain.py:63 | `str.strip()`: whitespace is cut from both ends; `Text.StripShape` and `Text.StripIdempotent` state what it keeps |
| Text.Lower | mykeychain.py:197 | `str.lower()`, character by character, keeping the length; `Text.LowerIsLower` states that no capital is left |
| Text.ParseDigits | mykeychain.py:149-150 | `int()` of a digit string; `Text.ParseDecimalText` states that it reads back the decimal text of any number |
| Text.StripShape | mykeychain.py:63 | `strip()` keeps one contiguous middle part of the answer, cuts only whitespace before and after it, and what it keeps has whitespace at neither end |
| Text.StripIdempotent | mykeychain.py:63 | a general law of `str.strip`, used at this line and every other answer: stripping an already stripped string changes nothing |
| Text.LowerIsLower | mykeychain.py:197 | after `lower()` no ASCII capital is left, and lowering again changes nothing |
| Text.ParseDecimalText | mykeychain.py:149-150 | `int()` of the decimal digits of a number gives that number back |
| Text.IsDigits | mykeychain.py:149 | `str.isdigit()`: a non-empty string of digits; `Categories.SelectByNumber` and `Generator.LengthAnswers` state which answers it accepts |
| Text.Contains | mykeychain.py:206 | Python's `t in s` on strings; `Text.ContainsIff` states that it holds exactly when `t` occurs at some position of `s` |
| Text.ContainsIff | mykeychain.py:206 | `term in text` holds exactly when `term` occurs at some position of `text` |
| Ordering.Below | mykeychain.py:190 | Python's order on strings, code point by code point with a prefix first, the order `sorted` uses here and at lines 215, 450 and 453; the four lemmas below show that it is a total order |
| Ordering.BelowReflexive | mykeychain.py:190 | every string is below or equal to itself |
| Ordering.BelowTotal | mykeychain.py:190 | of any two strings one is below or equal to the other |
| Ordering.BelowAntisymmetric | mykeychain.py:190 | two strings each below or equal to the other are equal |
| Ordering.BelowTransitive | mykeychain.py:190 | the order is transitive |
| Ordering.SortedKeys | mykeychain.py:190 | `sorted` over distinct keys: strictly ascending in Python's string order, exactly the given keys, each once |
| Ordering.SortedUnique | mykeychain.py:190 | two strictly ascending listings of the same keys are equal, so the sorted order is the only possible one |
| Cipher.IndexOf | mykeychain.py:43 | `str.index` gives the first position holding the character |
| Cipher.ShiftChar | mykeychain.py:42-47 | the body of the cipher loop for one character; `Cipher.TransformAt` states it position by position |
| Cipher.Transform | mykeychain.py:40-48 | the cipher emits exactly one character per input character |
| Cipher.CaesarCipher | mykeychain.py:37-48 | the early return and the loop compute `Transform` of the text |
| Cipher.TransformAt | mykeychain.py:42-47 | position by position: a charset character at index `idx` becomes the character at `(idx + direction*shift) mod L`; every other character is copied |
| Cipher.RoundTrip | mykeychain.py:39-45 | with a charset without repeats, decrypting with the shift that encrypted restores the text, for every integer shift |
| Cipher.WholeTurnsIdentity | mykeychain.py:44 | a shift that is a multiple of the charset length, 0 included, leaves the text unchanged |
| Cipher.OutsideCharsetUnchanged | mykeychain.py:46-47 | text with no charset character passes through under any shift |
| Cipher.TransformStaysInCharset | mykeychain.py:42-47 | a character is in the charset exactly when its image is |
| Cipher.DefaultCharset | mykeychain.py:11 | the default charset, written as four blocks; `Cipher.DefaultCharsetDistinct` states that together they are the 94-character literal, none twice |
| Cipher.DefaultCharsetDistinct | mykeychain.py:11 | the default charset has 94 characters, none twice, with `!` at position 62 |
| Cipher.DefaultCharsetAscii | mykeychain.py:11 | every character of the default charset is printable ASCII other than space |
| Cipher.DefaultIndexOf | mykeychain.py:11 | in the default charset the position of the j-th character is j |
| Cipher.ShiftByMinusOne | mykeychain_test.py:41-44 | encrypting "bcd" with shift -1 over the default charset gives "abc" |
| Cipher.CyrillicUnchanged | mykeychain_test.py:31-34 | "Привет" passes through any shift of the default charset |
| Cipher.ExclamationIsShifted | mykeychain_test.py:149-150 | `!` is in the default charset, so encrypting "a!b" differs from encrypting "a" and "b" around an unchanged `!` |
| Categories.BuiltinCategories | mykeychain.py:223-235 | ten categories, none twice, each non-empty and with no whitespace at its ends |
| Categories.KeyCategoriesPresent | mykeychain_test.py:162-167 | "Соцсети", "Банки/Финансы" and "Другое" are built-in categories |
| Categories.ResolveChoice | mykeychain.py:150-159 | the meaning of a menu number in `select_category`; `Categories.ResolveMatchesMenu` states which number picks which line |
| Categories.SelectCategory | mykeychain.py:147-150 | one answer to `select_category`: stripped, tested with `isdigit`, read with `int`; `Categories.SelectByNumber` and `Categories.ListedAgreesWithSelect` characterise it |
| Categories.ResolveMatchesMenu | mykeychain.py:150-161 | with S built-in and C custom categories: 1..S pick a built-in one, S+1..S+C a custom one, each the category printed beside its number; S+C+1 means "create new"; every other number is invalid |
| Categories.SelectByNumber | mykeychain.py:148-150 | typing the decimal number of a menu line resolves it as that number |
| Categories.ChooseListedCategory | mykeychain.py:174-179 | the listing menu only ever picks a category it printed |
| Categories.ListedAgreesWithSelect | mykeychain.py:147-157 | an answer picks a category in the listing menu exactly when `select_category` picks one for it, and both pick the same one |
| Categories.CheckCategoryName | mykeychain.py:327-335 | the two refusals of `create_new_category`, empty and already taken; `Categories.AppendKeepsCatalogue` states when each comes |
| Categories.AppendKeepsCatalogue | mykeychain.py:325-339 | a name is refused as taken exactly when, stripped, it is non-empty and already listed; appending an accepted name keeps the custom categories non-empty, stripped, distinct and apart from the built-in ones |
| Keychain.Seal | mykeychain.py:370-371 | the record `add_password` writes: the password encrypted with shift `len(password)`, and the category; `Keychain.DecryptSeal` states that it reads back |
| Keychain.Decrypt | mykeychain.py:191-192 | how the listings read a record: decryption with shift `len(encrypted)`; `Keychain.DecryptSeal` is its partner |
| Keychain.AfterCreateAccount | mykeychain.py:60-94 | `create_account` on one set of answers; `Keychain.CreateAccountEffect` and `Keychain.CreateAccountKeepsInvariant` characterise it |
| Keychain.ChosenPassword | mykeychain.py:366-368 | the typed password, or the generated one when the answer is empty, as here and at lines 389-391; `Keychain.AddEffect` and `Keychain.UpdateEffect` state that the saved record decrypts to it |
| Keychain.AfterAdd | mykeychain.py:344-378 | `add_password` on one set of answers; `Keychain.AddEffect` and `Keychain.AddKeepsInvariant` characterise it |
| Keychain.AfterUpdate | mykeychain.py:380-402 | `update_password` on one set of answers; `Keychain.UpdateEffect` and `Keychain.UpdateKeepsInvariant` characterise it |
| Keychain.AfterDelete | mykeychain.py:404-418 | `delete_password` on one set of answers; `Keychain.DeleteEffect` and `Keychain.DeleteKeepsInvariant` characterise it |
| Keychain.AfterNewCategory | mykeychain.py:325-342 | `create_new_category` on one answer; `Keychain.NewCategoryEffect` and `Keychain.NewCategoryKeepsInvariant` characterise it |
| Keychain.DecryptSeal | mykeychain.py:370-376 | a record written with shift `len(password)` and read back with shift `len(encrypted)` decrypts to the saved password and keeps its category |
| Keychain.CreateAccountEffect | mykeychain.py:60-94 | an account is created exactly for a stripped, non-empty, unused login and a master password of at least 6 characters equal to its confirmation; it is empty; no other account changes; a refusal changes nothing |
| Keychain.AddEffect | mykeychain.py:356-376 | a password is added exactly for a non-empty new resource; exactly that key appears, with the chosen category and a cipher text that decrypts to the typed or generated password; nothing else changes; a refusal changes nothing |
| Keychain.UpdateEffect | mykeychain.py:380-402 | only an existing non-empty resource is updated; only its cipher text changes, its category stays, and it decrypts to the new password; a refusal changes nothing |
| Keychain.DeleteEffect | mykeychain.py:404-418 | exactly the named existing record is removed, and only when the confirmation, stripped and lowered, is "y"; any other answer cancels and changes nothing |
| Keychain.UpperCaseConfirms | mykeychain.py:413-415 | the answer " Y " confirms a deletion |
| Keychain.NewCategoryEffect | mykeychain.py:325-342 | the stripped name is appended exactly when it is non-empty and not a built-in or custom category; nothing else changes |
| Keychain.CreateAccountKeepsInvariant | mykeychain.py:60-94 | account creation keeps every login stripped and non-empty and every account well formed |
| Keychain.AddKeepsInvariant | mykeychain.py:344-378 | adding a password under a category of the menu keeps every resource stripped and non-empty and filed under a category the account knows |
| Keychain.UpdateKeepsInvariant | mykeychain.py:380-402 | updating a password keeps the table well formed |
| Keychain.DeleteKeepsInvariant | mykeychain.py:404-418 | deleting a password keeps the table well formed |
| Keychain.NewCategoryKeepsInvariant | mykeychain.py:325-342 | adding a category keeps the custom categories distinct and apart from the built-in ones, and every record's category known |
| Keychain.Warning | mykeychain.py:124-125 | the warning after failed try `tries`: "2 left" after the first, "1 left" after the second, none after the third; `Keychain.TryFromRule` and `Keychain.LoginRule` state the warnings a login prints |
| Keychain.TryFrom | mykeychain.py:117-126 | the password attempts of `login` from a given try on; `Keychain.TryFromRule` characterises it |
| Keychain.LoginSpec | mykeychain.py:96-126 | `login` on one login answer and three attempts; `Keychain.LoginRule` characterises it |
| Keychain.TryFromRule | mykeychain.py:117-126 | from any try on, the attempts succeed exactly when one of the three is the master password, on the first such one, with the warnings printed before it; otherwise both warnings are printed |
| Keychain.LoginRule | mykeychain.py:117-126 | login succeeds exactly when one of the three attempts equals the master password, on the first such attempt; failure 1 warns "2 left", failure 2 warns "1 left", failure 3 warns nothing and ends in "too many attempts" |
| Keychain.ThirdAttemptLogsIn | mykeychain.py:117-124 | wrong, wrong, right logs in on the third attempt after the warnings "2 left" and "1 left" |
| Keychain.Store.CreateAccount | mykeychain.py:60-94 | the outcome and the new table are those of `AfterCreateAccount` on the old table, and a well-formed table stays well formed |
| Keychain.Store.Login | mykeychain.py:96-126 | the attempt loop returns what `LoginSpec` gives for the table |
| Keychain.Store.CreateNewCategory | mykeychain.py:325-342 | the outcome and the new table are those of `AfterNewCategory` on the old table, and a well-formed table stays well formed |
| Keychain.Store.AddPassword | mykeychain.py:344-378 | the outcome and the new table are those of `AfterAdd` on the old table, and a well-formed table stays well formed when the category is one of the menu |
| Keychain.Store.UpdatePassword | mykeychain.py:380-402 | the outcome and the new table are those of `AfterUpdate` on the old table, and a well-formed table stays well formed |
| Keychain.Store.DeletePassword | mykeychain.py:404-418 | the outcome and the new table are those of `AfterDelete` on the old table, and a well-formed table stays well formed |
| Queries.ByCategory | mykeychain.py:182-193 | the filtered, sorted and decrypted listing of one category; `Queries.ByCategoryExact` characterises it |
| Queries.ShowByCategory | mykeychain.py:163-194 | `show_passwords_by_category` on one answer; `Queries.ShowByCategoryExact` characterises it |
| Queries.ByCategoryExact | mykeychain.py:182-194 | a category's listing holds exactly the records of that category, each with its decrypted password, once each, in ascending order of resource, and has `len(filtered)` lines |
| Queries.ShowByCategoryExact | mykeychain.py:174-194 | an answer that picks no menu line is rejected; "nothing here" comes exactly for a category without records; otherwise that category is listed, the listing is non-empty and its count is its number of lines |
| Queries.AddedPasswordListed | mykeychain.py:373-376 | after `add_password`, the category listing shows the new resource with the password that was saved |
| Queries.Matches | mykeychain.py:206 | the search test `search_term in resource.lower()`; `Queries.SearchExact` states that the hits are exactly the resources that match |
| Queries.SearchSpec | mykeychain.py:196-220 | `search_passwords` on one answer; `Queries.SearchExact` characterises it and `Queries.Search` computes it |
| Queries.CollectMatches | mykeychain.py:203-207 | the search loop collects exactly the resources whose lower-cased name contains the term, each once |
| Queries.Search | mykeychain.py:196-220 | the search returns what `SearchSpec` gives |
| Queries.SearchExact | mykeychain.py:196-220 | an empty term is refused; otherwise the hits are exactly the matching records with decrypted password and category, once each, in ascending order, counted by `len(found)`; "nothing found" comes exactly when the term is non-empty and no resource matches, so a result list is never empty |
| Queries.SearchIgnoresCase | mykeychain.py:197-206 | the term "goo" finds "Google.com" |
| Queries.ShowAllSpec | mykeychain.py:433-459 | `show_all_passwords`; `Queries.GroupsNonEmpty`, `Queries.EveryRecordShown`, `Queries.NoRecordTwice` and `Queries.GroupsSorted` characterise it and `Queries.ShowAll` computes it |
| Queries.BucketShape | mykeychain.py:443-448 | after filing resources in any order, the dict has a list for exactly the categories used, and each list holds exactly the filed resources of its category |
| Queries.BucketAll | mykeychain.py:443-448 | once every resource is filed, the keys are exactly the categories in use and each list holds exactly its category's resources |
| Queries.FileByCategory | mykeychain.py:443-448 | the filing loop ends with a dict whose keys are the categories in use and whose lists hold exactly each category's resources |
| Queries.ListGroups | mykeychain.py:450-456 | the block loop lists each category's filed resources, sorted and decrypted |
| Queries.ShowAll | mykeychain.py:433-459 | `show_all_passwords` returns what `ShowAllSpec` gives: "empty" for no records, otherwise the category blocks and `len(passwords)` |
| Queries.GroupsNonEmpty | mykeychain.py:450-456 | each block is the listing of its category and is not empty |
| Queries.EveryRecordShown | mykeychain.py:443-456 | every record appears, decrypted, in the block of its own category |
| Queries.NoRecordTwice | mykeychain.py:443-456 | no line appears in two blocks |
| Queries.GroupsSorted | mykeychain.py:450 | the blocks come in strictly ascending order of category |
| Generator.Pool | mykeychain.py:318-322 | the pool is never shorter than the 52 ASCII letters it always starts with, so a draw always has a character to pick; which characters it holds is stated by `Generator.PoolContents` |
| Generator.Draw | mykeychain.py:323 | `length` draws give a password of that length, empty for a negative length, made of pool characters |
| Generator.PicksFor | mykeychain.py:323 | for a password over the pool there are draws, one per character, each naming a pool position that holds that character |
| Generator.DrawCovers | mykeychain.py:323 | those draws reproduce exactly that password |
| Generator.GeneratePassword | mykeychain.py:300-323 | `generate_password` with its random picks as a parameter; `Generator.EveryPasswordPossible` and `Generator.GeneratedRespectsFlags` characterise it |
| Generator.EveryPasswordPossible | mykeychain.py:300-323 | `generate_password` can produce every password of the requested length made of pool characters |
| Generator.PoolContents | mykeychain.py:318-322 | a character is in the pool exactly when it is an ASCII letter, or a digit when digits are on, or one of `!@#$%^&*` when specials are on |
| Generator.GeneratedRespectsFlags | mykeychain.py:318-323 | with digits off no digit is drawn, and with specials off no special character is drawn |
| Generator.PasswordLength | mykeychain.py:421-424 | the chosen length is never below 4 |
| Generator.LengthAnswers | mykeychain.py:421-424 | a typed number of at least 4 is taken as it is, a smaller one gives 12, and an answer that is not a number gives 12 |
| Generator.Flag | mykeychain.py:425-426 | a yes/no answer read as `strip().lower() != "n"`; `Generator.FlagRule` states which answers mean no |
| Generator.FlagRule | mykeychain.py:425-426 | a yes/no answer means "no" exactly when, stripped, it is "n" or "N" |
| Generator.GenerateAndShow | mykeychain.py:420-431 | the generated password has the chosen length, at least 4, and only characters the two answers allow |

## Left out

- File and JSON I/O (`load_charset`, `load_users`, `save_users`): the charset is a
  parameter, the user table a value. When the store is saved (after a new account, on
  logout and after a new category) is not modelled.
- The menus, the prompt texts and every printed message. The retry loops around the
  prompts of `create_account`, `select_category` and `create_new_category` are the
  caller's: one call handles one answer, and a refusal is an `Outcome`.
- `login`'s offer to create an account when the table is empty or the login is
  unknown. The model stops with `NoAccounts` or `UnknownLogin`.
- `select_category`'s "create a new category" choice (number S+C+1) resolves to
  `CreateNew`. The category `add_password` then uses is an argument, given after
  that choice has been made.
- The random draws of `secrets.choice`: a sequence `picks` stands for them, the
  i-th pick being reduced modulo the pool size. There is no claim about their
  distribution.
- `str.strip`, `str.lower` and `str.isdigit` use full Unicode rules in Python. The
  model uses the ASCII whitespace set, ASCII case mapping and ASCII digits.
- Records without a category (the `"Без категории"` fallback of the listings):
  every record carries a category, as `add_password` always writes one.
- `show_all_passwords` prints each category header upper-cased. The model keeps
  the category itself; the upper-casing of the printed text is not modelled.
- `show_passwords_by_category` checks for an empty category list, which cannot
  happen because the ten built-in categories are always present. The model has no
  such case.
- Queries.CollectMatches: Python visits the resources in the dict's insertion
  order. The loop here picks them in an unspecified order, and the result is stated
  as a set of resources without repeats because only its sorted form is printed.
- Queries.FileByCategory: the order inside each category's list is left unspecified
  for the same reason: each list is sorted before it is printed.
- The default arguments of `generate_password` (`length=12, use_digits=True,
  use_special=True`): `Generator.GeneratePassword` takes all three, as its only
  caller in the code (`generate_and_show_password`) passes all three.
- Generator.GenerateAndShow: the printing of the password when `auto` is false is
  not modelled.
- The `KeyboardInterrupt` handler.
