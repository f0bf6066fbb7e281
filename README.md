# print_r dump to tree converter, modelled in Dafny

`convertarraytojson.php` reads the text that PHP's `print_r()` writes for a
nested array and rebuilds the array, which it then writes out as JSON. This
project models its conversion loop and proves properties of that model.

The conversion loop handles each kind of line as follows:

- A line whose `trim()` is empty or `(` is skipped.
- A `)` line returns to the parent array if there is one.
- A line holding `=>` is split at the first `=>`:
  - The key is the left part after `trim()`, then after `trim($key, "[] \t\r\n")`.
  - The value is the right part after `trim()`.
- The value `Array` descends into the child array under the key. It creates an empty child unless the key already holds an array.
- Any other value is stored under the key, overwriting what was there:
  - first, one pair of matching quotes is removed;
  - then a numeric string becomes a float if it contains `.`, and an int otherwise.
- Every other line is ignored.
- Whatever depth the lines end at, the result is the root array.

The modules follow that structure:

- `PhpStrings` (`php_strings.dfy`):
  - `trim()` with a character set;
  - `strpos()` and `explode(..., 2)` on `"=>"`.
- `PhpNumeric` (`php_numeric.dfy`):
  - `is_numeric()`;
  - the `(int)` cast of a numeric string;
  - the decimal text of an int.
- `Tree` (`tree.dfy`):
  - the nested ordered map (`Node`, `Entry`);
  - `$map[$k]` lookup and assignment;
  - nodes reached by a path of keys, and replacing the map at a path.
- `Converter` (`converter.dfy`):
  - line classification, quote stripping and numeric coercion;
  - the builder state and one step of the loop;
  - the loop itself as the method `Convert`.
- `PrintR` (`printr.dfy`): the lines `print_r()` writes for an array. Its main theorem is that converting those lines gives the array back.

PHP references are modelled as paths of keys from the root:

- `$current` is the path of the array being filled.
- `$stack` is the sequence of paths of its ancestors.
- Writing through `$current` is written as replacing the map at that path (`Tree.Replace`).
- The builder invariant (`Converter.Valid`) has four parts:
  - `|stack| == |current|`: the stack has one entry per key on the current path;
  - `stack[i] == current[..i]`: each stack entry is the path of an ancestor, outermost first;
  - `MapAt(root, current)`: the current path leads to an array;
  - `WellFormedEntries(root)`: no array has a key twice.
- Together these make paths and references agree: popping the stack yields the parent's path, and `Converter.StackHoldsArrays` shows every stack entry leads to an array.

Arrays are sequences of `(key, node)` entries in insertion order:

- Assigning an existing key replaces its value in place.
- Assigning a new key appends it.

`is_numeric()` follows PHP 8's rules for numeric strings:

- The string may have leading and trailing whitespace: space, tab, LF, CR, vertical tab and form feed.
- The rest is an optional `+` or `-`, then digits with at most one `.` and at least one digit, then an optional exponent.
- An exponent is `e` or `E`, an optional sign, and at least one digit.
- Hexadecimal, octal, binary and `_` separators are not accepted.

The grammar is written out as the datatype `PhpNumeric.Numeral`. It is proved equivalent to the parser that decides `is_numeric()`.

The `(int)` cast of such a string follows these rules:

- It takes the value the digits denote.
- An exponent scales that value, and a negative exponent truncates toward zero.
- The result saturates to PHP's 64-bit range.

A float is kept as the text it came from. It is tagged `Float` rather than converted.

Two facts about the code are worth stating outright:

- The key loses every `[`, `]`, space, tab, CR and LF at either end (convertarraytojson.php:43), although the comment at convertarraytojson.php:42 speaks of surrounding brackets like `[key]`. A line `[[a]] => 1` gives the key `a`.
- The stack's length is the nesting depth: zero at the root, and one more for each `Array` line the builder has descended through and not yet closed (convertarraytojson.php:51, 32).

## Model

| member | source | states |
|---|---|---|
| PhpStrings.Trim | convertarraytojson.php:23 | trim() drops exactly the leading and the trailing run of characters from the set. The result is the rest of the string, and neither of its ends is in the set. |
| PhpStrings.TrimPadded | convertarraytojson.php:41-44 | Trimming padding made of set characters from around a core whose ends are not in the set gives back exactly that core. |
| PhpStrings.FindArrow | convertarraytojson.php:39 | strpos($line, '=>') finds a position exactly when the line contains "=>". That position is an occurrence of "=>", and there is none before it. |
| PhpStrings.SplitAtArrow | convertarraytojson.php:39-40 | SplitAtArrow stands for the strpos() test and explode() together. It gives None exactly when the line has no "=>", which is when strpos() returns false. Otherwise it gives explode's two parts: the line is left + "=>" + right, and left holds no "=>". |
| PhpStrings.SplitAtFirstArrow | convertarraytojson.php:40 | A line written as left + "=>" + right, with no "=>" in left, is split into exactly those two parts, whatever right contains. |
| Converter.Classify | convertarraytojson.php:23-44 | A line is Blank iff it trims to "", Open iff it trims to "(", and Close iff it trims to ")". It is Ignored iff it is none of these and has no "=>". |
| Converter.ArrowLineIsNoMarker | convertarraytojson.php:24-39 | A line containing "=>" trims to at least two characters, so it is never taken for a blank, "(" or ")" line. |
| Converter.KeyValueLine | convertarraytojson.php:39-44 | A line split at its first "=>" is read as two parts. The key is the left part after trim(), then after trim("[] \t\r\n"). The value is the trimmed right part, which may itself contain "=>". |
| Converter.StripQuotes | convertarraytojson.php:58-59 | If the value has at least two characters and starts and ends with the same quote (" or '), the result is the value without its first and last character. Otherwise the value is unchanged. |
| Converter.MismatchedQuotesKept | convertarraytojson.php:58-59 | A value with a quote at the start and a different last character is coerced as it stands. |
| Converter.KeyOf | convertarraytojson.php:41-43 | The key is no longer than the left part, and neither of its ends is a bracket, space, tab, CR or LF. |
| Converter.Coerce | convertarraytojson.php:62-63 | A value becomes a string iff it is not numeric, and a float iff it is numeric and contains ".". Otherwise it becomes an int within PHP's 64-bit range. |
| Converter.CoerceKeepsText | convertarraytojson.php:62-63 | Every value that does not become an int keeps its text. |
| Converter.NormalizeScalar | convertarraytojson.php:56-64 | A value with the same quote (" or ') at both ends is coerced without those two characters. Any other value is coerced as it stands. |
| Converter.QuotedIsCoerced | convertarraytojson.php:56-64 | A value inside one pair of matching quotes is coerced exactly as the unquoted value would be. Quoting does not keep a value from becoming a number. |
| Converter.QuotedDigitsAreInt | convertarraytojson.php:56-64 | A quoted string of digits is stored as the int those digits denote, saturated to 64 bits. |
| Converter.QuotedZeroPaddedIsInt | convertarraytojson.php:56-64 | The value "007", written with its quotes, is stored as the int 7. |
| Converter.CoerceScalarText | convertarraytojson.php:62-63 | Each scalar that coercion can produce is produced again from its own text: a non-numeric string, an int in range, or a numeric text with ".". |
| PhpNumeric.IsNumericIsNumeral | convertarraytojson.php:62 | is_numeric($v) holds iff $v, trimmed of numeric whitespace, is the spelling of a valid numeral: optional sign, digits with at most one ".", at least one digit, optional exponent. |
| PhpNumeric.IsNumeric | convertarraytojson.php:62 | is_numeric(); a predicate without a contract of its own, characterised by IsNumericIsNumeral. |
| PhpNumeric.ParseSpelled | convertarraytojson.php:62 | The numeral parser reads every valid numeral back from its own spelling. |
| PhpNumeric.ParseNumeral | convertarraytojson.php:62 | A numeral the parser returns is valid, and its spelling is exactly the text that was parsed. |
| PhpNumeric.NumericFirstChar | convertarraytojson.php:62 | A numeric string starts with whitespace, a sign, a digit or ".". |
| PhpNumeric.IntCast | convertarraytojson.php:63 | (int)$v of a numeric string without a "." lies in PHP's 64-bit int range. |
| PhpNumeric.DigitStringCast | convertarraytojson.php:62-63 | A non-empty string of digits, leading zeros included, is numeric and has no ".". Its (int) cast is the number the digits denote, saturated. |
| PhpNumeric.DecimalRoundTrip | convertarraytojson.php:62-63 | The decimal text of any 64-bit int is numeric, has no ".", and casts back to that same int. |
| PhpNumeric.Saturate | convertarraytojson.php:63 | The result lies in the 64-bit range. It equals its argument when the argument is in range, and is the nearer bound otherwise. |
| Tree.Lookup | convertarraytojson.php:48 | isset($current[$key]) holds iff the key is among the array's keys. The value found is the one stored with that key. |
| Tree.Put | convertarraytojson.php:49-65 | After $map[$k] = $v, the key k holds v and every other key holds what it held before. |
| Tree.PutKeys | convertarraytojson.php:49-65 | Assignment keeps the order of the keys. A new key is appended at the end. |
| Tree.PutAppends | convertarraytojson.php:49-65 | Assigning a key the array lacks appends exactly that entry. |
| Tree.PutPut | convertarraytojson.php:65 | Of two assignments to the same key, the last one wins. |
| Tree.PutLookup | convertarraytojson.php:65 | Assigning a key the value it already holds leaves the array unchanged. |
| Tree.PutWellFormed | convertarraytojson.php:49-65 | Assignment keeps every array free of duplicate keys. |
| Tree.Replace | convertarraytojson.php:19-65 | Writing through a path leaves an array at that path, and that array is the one written. |
| Tree.ReplaceReplace | convertarraytojson.php:19-65 | Of two writes through the same path, the last one wins. |
| Tree.AtReplace | convertarraytojson.php:19-65 | Writing through a path changes nothing off that path. Below the path, the tree is the written array. |
| Tree.PutOffPath | convertarraytojson.php:65 | Setting $current[$key] changes only the nodes on the current path and below the key. Below the key, the tree is the new value. |
| Converter.Valid | convertarraytojson.php:18-53 | The builder invariant; a predicate without a contract of its own, made of the four conjuncts listed above. InitValid, Step and Run state that it holds throughout, and Convert keeps it as its loop invariant. |
| Converter.StackHoldsArrays | convertarraytojson.php:30-51 | Under the invariant, every path on the stack leads to an array. A ")" line therefore always returns to an array. |
| Converter.InitValid | convertarraytojson.php:18-20 | The starting state (empty root, root current, empty stack) satisfies the builder invariant. |
| Converter.Descend | convertarraytojson.php:46-53 | Descending keeps the invariant, extends the current path by the key, and pushes the old current path onto the stack. |
| Converter.Assign | convertarraytojson.php:54-65 | Storing a scalar keeps the invariant, keeps the current path and the stack, and leaves the normalised value under the key in the current array. |
| Converter.ScalarOffPath | convertarraytojson.php:65 | Storing a scalar through the current path changes no node off that path, and leaves no node below the key. |
| Converter.Ascend | convertarraytojson.php:28-35 | Ascending keeps the invariant and the tree. With an empty stack the state is unchanged. Otherwise the last stack entry becomes the current path and is popped. |
| Converter.Step | convertarraytojson.php:23-67 | One line of the loop keeps the builder invariant. |
| Converter.BlankOrOpenIsNoOp | convertarraytojson.php:23-26 | A line that trims to "" or "(" leaves the tree, the current array and the stack unchanged. |
| Converter.CloseLine | convertarraytojson.php:28-35 | With an empty stack, a ")" line changes nothing. Otherwise it pops exactly one entry, and the popped parent, the current path minus its last key, becomes the current array. |
| Converter.UnrecognizedIsNoOp | convertarraytojson.php:39 | A line that is not blank, "(" or ")" and has no "=>" leaves the whole state unchanged. |
| Converter.DescendLine | convertarraytojson.php:46-53 | An "Array" value does all of the following: pushes the current path; extends the current path by the key; keeps an existing child array with its contents, and otherwise makes the child empty; leaves every other key of the parent unchanged; changes nothing off the new path. |
| Converter.ValidAfterDescend | convertarraytojson.php:46-53 | Descending keeps the builder invariant. |
| Converter.AssignLine | convertarraytojson.php:54-65 | Any other value does all of the following: stores its normalised scalar under the key, overwriting anything there, an array included; keeps every other key; keeps the current path and the stack; changes nothing elsewhere in the tree except what lay below the overwritten key. |
| Converter.KeyOrder | convertarraytojson.php:46-65 | A key/value line leaves the current array's keys as they were, or adds that key at the end. |
| Converter.StepNewScalar | convertarraytojson.php:54-65 | A scalar line under a key the current array lacks appends exactly that entry to the current array. |
| Converter.StepNewArray | convertarraytojson.php:46-53 | An "Array" line under a key the current array lacks appends an empty array under that key and moves into it. |
| Converter.Run | convertarraytojson.php:22-68 | Running the loop over any lines keeps the builder invariant. |
| Converter.RunAppend | convertarraytojson.php:22 | Running the lines a + b is running a, and then running b from where a left off. |
| Converter.Convert | convertarraytojson.php:18-68 | The loop over the lines, with the current path and the stack updated in place, returns the root that the fold of Step over the lines gives. This holds at whatever depth the lines end. The result has no duplicate keys. |
| Converter.RunWithoutKeyValues | convertarraytojson.php:22-68 | Lines without "=>" never change the tree, whatever ")" lines do to the depth. |
| Converter.OnlyMarkersGiveEmptyArray | convertarraytojson.php:18-68 | An input of blank lines and markers only converts to the empty array. |
| PrintR.KeyLineRead | convertarraytojson.php:39-44 | print_r's line for an entry is read as exactly that entry's key and value text. |
| PrintR.ScalarReadBack | convertarraytojson.php:56-64 | print_r's text of a readable scalar is not "Array", and it normalises back to that scalar. |
| PrintR.RunDumpEntries | convertarraytojson.php:22-68 | The lines of readable entries append exactly those entries, nested arrays included, to the current array. The current array and the stack end as they began. |
| PrintR.RunNestedEntry | convertarraytojson.php:28-53 | The lines of a nested array entry add that entry with all its contents: "[key] => Array", "(", the children's lines, ")" and an empty line. The builder returns to the parent array. |
| PrintR.DumpNoLineFeed | convertarraytojson.php:16-22 | No line print_r writes for a readable array contains a line feed, so file() splits print_r's text into those same lines. The empty lines that file() skips are no-ops in the loop, so the round trip is about the lines the converter actually reads. |
| PrintR.DumpRoundTrip | convertarraytojson.php:18-68 | Converting print_r's lines for a readable array gives exactly that array back, with the builder at the root. |

## Left out

- Command-line handling and file I/O (convertarraytojson.php:8-16, 76-86): argument defaults, the input-file check and its exit code, reading the file, creating the output directory, and writing the result. The model takes the lines as a sequence of strings. Lines that `file()` would skip as empty are no-ops in the loop anyway.
- `json_encode` and its failure exit (convertarraytojson.php:70-74). JSON text and PHP's list versus object detection are not modelled. The model's result is the tree that would be encoded.
- The `(float)` conversion of a numeric string with a `.` (convertarraytojson.php:63). A float is the tag `Float` carrying its text, because floating-point numerics are not modelled. Only the decision between int and float is.
- PhpNumeric.IntCast: computes the exact value of the numeral, truncated toward zero, and saturates it to 64 bits. PHP converts every numeric string with an exponent through a double first, which this does not model, because floating point is not modelled. Two results differ from PHP's. `"9007199254740993e0"` gives 9007199254740992 in PHP, since the double rounds it, but 9007199254740993 here. A value past the double range, such as `"1e400"`, is INF in PHP, which the cast turns into 0, but IntMax here.
- PHP turns integer-like string keys such as `"0"` into int keys. Keys stay strings here. This does not change which entries are equal or their order in the model; it only affects what JSON would be written.
- `index.php` is framework bootstrap that calls code outside the repository, and `cfg/echoconfig.php` is handler-chain configuration for that framework. Neither is part of this model.
- The references themselves: aliasing between `$current`, `$parent` and the stack entries is modelled by paths of keys, not by shared mutable storage. The builder invariant records why the two agree: every stack entry is a prefix of the current path, and assignments only touch children of the current array.
- `print_r()` is modelled only for arrays whose text reads back unambiguously (`PrintR.ReadableEntries`), and the round trip is stated for those:
  - keys have no `=>`, no line feed, and no bracket or blank at either end;
  - strings have no line feed, are not numeric, are not `Array`, are not quoted and are not padded with whitespace;
  - floats are numeric texts containing `.` with no line feed and no padding.
  A key or string holding a line feed would be split into two lines by `file()`, so the converter would not see the line print_r wrote. `PrintR.DumpNoLineFeed` proves that, under these conditions, no line holds one.
  Objects, references, recursion markers and PHP's own float formatting are not modelled.
