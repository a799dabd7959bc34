# Homun runtime support layer, modelled in Dafny

Homun is a Python-like language that compiles to Rust. Its runtime library
gives the generated Rust code:

- Python-style indexing, slicing, concatenation and membership;
- a min-priority queue shared by every handle that refers to it;
- a per-thread cache of compiled regular expressions with an anchored match;
- string, character, collection, dictionary, deque and stack helpers.

This project models that library in Dafny and proves what each operation
promises.

One Dafny module per source file:

| module | file |
|---|---|
| `Builtin` | `builtin.rs` |
| `PriorityQueue` | `heap.rs` |
| `Regex` | `re.rs` |
| `DictBuild` | `dict.rs` |
| `Chars` | `chars.rs` |
| `StrExt` | `str_ext.rs` |
| `StdStr` | `std/str.rs` |
| `StdMod` | `std/mod.rs` |
| `StdCollection` | `std/collection.rs` |
| `StdMath` | `std/math.rs` |
| `StdDict` | `std/dict.rs` |
| `StdDeque` | `std/deque.rs` |
| `StdStack` | `std/stack.rs` |

Two modules support the rest:

- `Prelude` holds `Option` and the integer ranges.
- `RustLib` holds the Rust standard-library operations that several files rely on: `Iterator::zip` and `str::repeat`.

Modelling choices:

- **How source code becomes Dafny.** Pure Rust functions become Dafny functions, with lemmas about them. Anything that works on a `&mut` argument, or on shared state, becomes a class. Each class field is reassigned by its methods:
  - the priority queue: `PriorityQueue.Heap`;
  - the regex cache: `Regex.RegexCache`;
  - `Vec`: `StdCollection.Vec`;
  - `VecDeque`: `StdDeque.Deque`;
  - `HashMap`: `StdDict.Dict`.
- **Aliased heap handles.** Two heap handles that alias are two references to one `Heap` object.
- **Loops become loops.** The stepped `range!` counter, the in-place sort and reversal of the copies made by `sorted` and `reversed`, and the `seen` set of `unique` are `while` loops. Each loop is proved against a specification function.
- **Text.** Strings are `seq<char>`, and the text is taken to be ASCII, so a byte offset is a character index.
- **The regex engine and the Unicode tables.** The model does not contain them. They are parameters: `Regex.Engine` and `Chars.Tables`.

Edge cases of the code that a reader might not expect; the model follows the code:

- **`homun_slice(v, 0, len, -1)` is empty, as Python's `v[0:len:-1]` is.** With a negative step, `start == 0` selects the upper bound `len`, but `end == len` is not the `i64::MAX` sentinel, so the lower bound is also `len`. `Builtin.SliceExplicitBoundsReverseIsEmpty` proves this. Only `homun_slice(v, 0, i64::MAX, -1)` reverses (`Builtin.SliceDefaultReverse`).
- **`[3:0:-1]` takes indices 2, 1, 0, where Python's slicing takes 3, 2, 1.** The backward branch walks `(norm(end)..norm(start)).rev()`, so `norm(start)` is exclusive (`Builtin.SliceDescendingExample`).
- **`is_ws` accepts more than its comment lists.** The comment names space, tab, `\n` and `\r`, but `char::is_ascii_whitespace` also accepts form feed (`Chars.AsciiWhitespace`, `Chars.WsExamples`).

## Model

| member | source | states |
|---|---|---|
| Builtin.IndexVec | builtin.rs:14-19 | for `-len <= key < len` the result is the element at `len + key` for a negative key and at `key` otherwise; any other key panics, so it is excluded by the precondition |
| Builtin.IndexMap | builtin.rs:21-29 | a map lookup needs the key present and returns the value stored under it |
| Builtin.IndexNegativeAgrees | builtin.rs:17 | a negative index denotes the same element as the index plus the length |
| Builtin.Norm | builtin.rs:41-44 | every offset lands in `[0, len]`: in-range offsets are kept, negative ones count from the end, and both ends clamp |
| Builtin.Forward | builtin.rs:48 | `(lo..hi).step_by(step)` starts at `lo`, advances by `step`, stays below `hi`, and is empty exactly when `hi <= lo` |
| Builtin.Backward | builtin.rs:52 | `(lo..hi).rev().step_by(step)` starts at `hi - 1`, descends by `step`, stays at or above `lo`, and is empty exactly when `hi <= lo` |
| Builtin.SliceIndices | builtin.rs:39-56 | the positions a slice reads: none for step 0, at most `len` of them, all in `[0, len)`, increasing for a positive step and decreasing for a negative one |
| Builtin.Slice | builtin.rs:39-56 | the result is never longer than `v`, every element is some `v[j]`, and step 0 gives the empty vector |
| Builtin.SliceForward | builtin.rs:45-48 | a positive step reads `Forward(norm(start), norm(end), step)`; the result is empty exactly when `norm(start) >= norm(end)` and otherwise starts with `v[norm(start)]` |
| Builtin.SliceBackward | builtin.rs:49-52 | a negative step reads `Backward(lo, hi, -step)`, where `end == i64::MAX` gives `lo = 0`, `start == 0` gives `hi = len`, and otherwise `lo = norm(end)`, `hi = norm(start)` |
| Builtin.ForwardUnit | builtin.rs:48 | with step 1 the forward walk is exactly `lo, lo+1, ..., hi-1` |
| Builtin.BackwardUnit | builtin.rs:52 | with step 1 the backward walk is exactly `hi-1, ..., lo` |
| Builtin.SliceIdentity | builtin.rs:45-48 | `homun_slice(v, 0, len, 1) == v` |
| Builtin.SliceDefaultReverse | builtin.rs:49-52 | `homun_slice(v, 0, i64::MAX, -1)` is the reverse of `v` |
| Builtin.SliceExplicitBoundsReverseIsEmpty | builtin.rs:49-52 | `homun_slice(v, 0, len, -1)` is empty |
| Builtin.SliceDescendingExample | builtin.rs:49-52 | `homun_slice(v, 3, 0, -1) == [v[2], v[1], v[0]]` |
| Builtin.SliceCommutesWithMap | builtin.rs:47-52 | mapping a function over the elements commutes with slicing, so the positions depend on the length only |
| Builtin.Concat | builtin.rs:60-63 | length `|a| + |b|`, `a` as prefix, `b` as suffix, and the multiset is the union with duplicates |
| Builtin.ContainsVec | builtin.rs:87-89 | true exactly when some element equals the item |
| Builtin.ContainsChar | builtin.rs:102-107 | true exactly when the character occurs in the text |
| Builtin.ContainsSet | builtin.rs:90-92 | true exactly when the singleton of the item is a subset, that is, exactly when removing the item shrinks the set |
| Builtin.ContainsMap | builtin.rs:93-95 | asks about keys only: true exactly when removing the item from the key set shrinks it below the map's size |
| Builtin.ContainsStrCorrect | builtin.rs:108-113 | the substring scan is true exactly when the substring occurs at some offset |
| Builtin.ContainsConsistent | builtin.rs:87-113 | vector membership is set membership of its elements, map membership is key membership, and a character is contained exactly when the one-character string is |
| Builtin.ContainsMapExample | builtin.rs:93-95 | a map contains its key and not another |
| PriorityQueue.StrLeReflexive | heap.rs:39 | the string order is reflexive |
| PriorityQueue.StrLeAntisymmetric | heap.rs:39 | the string order is antisymmetric |
| PriorityQueue.StrLeTransitive | heap.rs:39 | the string order is transitive |
| PriorityQueue.StrLeTotal | heap.rs:39 | the string order is total |
| PriorityQueue.OutranksReflexive | heap.rs:39 | the pop order relates every entry to itself |
| PriorityQueue.OutranksTotal | heap.rs:39 | of any two entries one leaves no later than the other |
| PriorityQueue.OutranksTransitive | heap.rs:39 | the pop order is transitive |
| PriorityQueue.TopUnique | heap.rs:57-59 | the entry a pop takes is determined by the contents alone |
| PriorityQueue.TopIsMinimumThenGreatestItem | heap.rs:55-59 | the popped entry has the least priority and, among entries of that priority, the lexicographically greatest item |
| PriorityQueue.TopIndex | heap.rs:57-59 | the scan finds a position whose entry outranks every entry |
| PriorityQueue.Heap.constructor | heap.rs:42-44 | a new queue holds nothing |
| PriorityQueue.Heap.Push | heap.rs:50-53 | the contents gain exactly one `(priority, item)` |
| PriorityQueue.Heap.Pop | heap.rs:55-59 | `None` on an empty queue and the queue stays empty; otherwise the top entry is returned and exactly one copy of it is removed |
| PriorityQueue.Heap.Len | heap.rs:62-64 | the number of queued entries |
| PriorityQueue.Heap.IsEmpty | heap.rs:66-69 | empty exactly when the length is 0 and the contents are empty |
| PriorityQueue.Heap.PopUntilEmpty | heap.rs:134-148 | popping until `None` empties the queue, yields exactly the queued multiset, in pop order, with non-decreasing priorities |
| PriorityQueue.SharedHandles | heap.rs:226-233 | a push through one handle is seen through the other, and a pop through the other empties the first |
| PriorityQueue.NewIsEmpty | heap.rs:77-81 | a new queue has length 0, is empty and pops `None` |
| PriorityQueue.MinFirst | heap.rs:125-132 | priority 2 comes out before priority 10, leaving one entry |
| PriorityQueue.TieBreak | heap.rs:186-193 | with equal priorities the `(Reverse(priority), item)` order pops the greatest item, `"gamma"`, first; the test itself only asks that every item comes out, which `PopUntilEmpty` gives |
| Regex.MatchAt | re.rs:73-90 | an out-of-range position, no match, or a first match that does not start at `pos` gives `(false, "", pos)`; success means `text[pos..end]` is the matched text, `end == pos + |matched|`, `pos <= end <= |text|` |
| Regex.RegexCache.constructor | re.rs:42-45 | the cache starts empty |
| Regex.RegexCache.GetOrCompile | re.rs:49-60 | the pattern ends up cached as its own compilation; a hit changes nothing, a miss adds that one entry; no entry is removed or replaced |
| Regex.RegexCache.Match | re.rs:73-90 | the result is `MatchAt` whatever the cache held; an out-of-range position leaves the cache untouched and needs no valid pattern; an in-range one leaves it unchanged on a hit and adds exactly the pattern's compilation on a miss |
| Regex.RegexCache.IsMatch | re.rs:96-101 | the answer is whether the engine finds the pattern anywhere in the text; the cache is unchanged on a hit and gains exactly the pattern's compilation on a miss |
| Regex.RepeatedMatch | re.rs:207-217 | the same match asked twice gives the same result |
| RustLib.Zip | std/collection.rs:19-21 | length is the shorter length and entry `i` is `(a[i], b[i])` |
| RustLib.Repeat | str_ext.rs:27 | `n` copies have length `n * |s|` |
| RustLib.RepeatAdd | str_ext.rs:27 | one copy is `s`, and `m + n` copies are `m` copies followed by `n` copies |
| RustLib.Cycle | std/str.rs:67-68 | the first `n` characters of the endless repetition have length `n` |
| RustLib.RepeatPrefix | std/str.rs:67-68 | enough copies of the fill, cut to `n`, are the first `n` characters of the endless repetition |
| RustLib.RepeatSingle | str_ext.rs:44 | repeating one character gives a run of that character |
| DictBuild.FromPairs | dict.rs:32-36 | the keys are exactly the keys occurring in the pairs |
| DictBuild.LastPairWins | dict.rs:33-35 | a pair no later pair overrides is in the map with its value |
| DictBuild.FromPairsEntries | dict.rs:33-35 | every entry of the map is the last pair with its key |
| DictBuild.FromPairsEmpty | dict.rs:34-35 | no pairs give the empty map |
| DictBuild.FromPairsSize | dict.rs:34-35 | distinct keys give one entry per pair |
| DictBuild.DictZip | dict.rs:38-42 | the map of the zipped pairs; its keys are the keys with a partner value |
| DictBuild.ZipIgnoresExcess | dict.rs:39-41 | values past the last key do not matter |
| DictBuild.DictZipSize | dict.rs:40-41 | distinct keys give `min(|ks|, |vs|)` entries |
| DictBuild.DictZipLookup | dict.rs:40-41 | with distinct keys, `ks[i]` maps to `vs[i]` |
| DictBuild.DictClone | dict.rs:47-49 | the same keys with the same values |
| DictBuild.DuplicateKeyExample | dict.rs:84-88 | `[("x", 10), ("x", 20)]` gives `{"x": 20}` |
| Chars.All | chars.rs:22 | `chars().all(p)` holds exactly when every character satisfies `p` |
| Chars.NonEmptyAll | chars.rs:22 | non-empty and every character satisfies `p` |
| Chars.IsAlpha | chars.rs:20-23 | non-empty and every character alphabetic |
| Chars.IsAlnum | chars.rs:26-29 | non-empty and every character alphabetic or numeric |
| Chars.IsDigit | chars.rs:32-35 | non-empty and every character in `'0'..'9'` |
| Chars.IsWs | chars.rs:38-41 | non-empty and every character space, tab, line feed, form feed or carriage return |
| Chars.EmptyIsNothing | chars.rs:16 | all four are false on the empty string |
| Chars.NonEmptyAllConcat | chars.rs:22 | the shared shape is closed under concatenation |
| Chars.ClassifiersConcat | chars.rs:20-41 | each classifier is closed under concatenation |
| Chars.WsIsNotDigit | chars.rs:32-41 | a whitespace string is never a digit string |
| Chars.WsExamples | chars.rs:165-191 | `"\r\n"`, form feed and spaces are whitespace; `" a"` and `"1"` are not |
| StrExt.StrRepeat | str_ext.rs:21-28 | a count of 0 or less gives `""`; a positive count gives `n` copies, `n * |s|` characters |
| StrExt.StrRepeatOnce | str_ext.rs:64-67 | repeating once gives the string back |
| StrExt.StrRepeatAdd | str_ext.rs:27 | counts add: `m + n` copies are `m` copies then `n` copies |
| StrExt.Spaces | str_ext.rs:44 | `n` characters, all spaces |
| StrExt.StrPadCenter | str_ext.rs:30-45 | a width at most the length (including any width of 0 or less) leaves `s`; otherwise exactly `width` characters: `(width - |s|) / 2` spaces, `s`, then the rest in spaces, the right side equal to the left or one more |
| StrExt.PadCenterExamples | str_ext.rs:94-134 | `"hi"` in 6 and 7, a too-short width, width 0 and the empty string give the strings the tests expect |
| StrExt.RepeatExamples | str_ext.rs:54-84 | `"ab"` three times, a negative count and an empty string give the expected strings |
| StdStr.StripPrefix | std/str.rs:44-46 | with the prefix, `prefix + result == s`; without it, the result is `s` |
| StdStr.StripSuffix | std/str.rs:48-50 | with the suffix, `result + suffix == s`; without it, the result is `s` |
| StdStr.StripInverse | std/str.rs:44-50 | stripping undoes prepending and appending |
| StdStr.Find | std/str.rs:29-31 | the result is -1 or an offset where `sub` occurs, and `sub` occurs at no smaller offset (at none for -1) |
| StdStr.FindAgreesWithContains | std/str.rs:29-33 | `find` is -1 exactly when `contains` is false |
| StdStr.Contains | std/str.rs:33 | true exactly when `sub` occurs at some offset |
| StdStr.StartsWith | std/str.rs:17 | true exactly when `prefix` is no longer than `s` and agrees with it character by character from the front |
| StdStr.EndsWith | std/str.rs:18 | true exactly when `suffix` is no longer than `s` and agrees with it character by character at the back |
| StdStr.StartsWithIsPrefix | std/str.rs:17 | `s` starts with `p` exactly when `s` is `p` followed by some text |
| StdStr.EndsWithIsSuffix | std/str.rs:18 | `s` ends with `p` exactly when `s` is some text followed by `p` |
| StdStr.StdRepeat | std/str.rs:35 | `n` copies for `n >= 0`; a negative count is only allowed on the empty string and gives `""` |
| StdStr.CopiesCover | std/str.rs:67 | `n / d + 1` copies of a `d`-character fill cover `n` characters, so the cut in the padding stays in bounds |
| StdStr.PadLeft | std/str.rs:64-69 | a width at most the length leaves `s`; otherwise exactly `width` characters, ending in `s`, prefixed by the first `width - |s|` characters of the repeated fill |
| StdStr.PadRight | std/str.rs:71-76 | the same with `s` first and the fill after it |
| StdStr.Pad | std/str.rs:67-68 | `fill.repeat(n / |fill| + 1)` cut to `n` is the first `n` characters of the repeated fill |
| StdStr.CycleSingle | std/str.rs:67-68 | a one-character fill pads with that character only |
| StdStr.PadLeftExample | std/str.rs:64-76 | `pad_left("7", 3, "0") == "007"`, `pad_right("ab", 5, "xy") == "abxyx"`, and a wide enough string ignores an empty fill |
| StdStr.Substr | std/str.rs:37-42 | both offsets are normalised like `norm`; crossed offsets give `""`, otherwise the text between them |
| StdStr.SubstrWhole | std/str.rs:37-42 | `substr(s, 0, len) == s` |
| StdStr.SubstrJoin | std/str.rs:37-42 | adjacent substrings join into the substring spanning both |
| StdStr.SubstrSuffix | std/str.rs:39 | a start of `-k` gives the last `k` characters, or all of them when `k` exceeds the length |
| StdStr.CharAt | std/str.rs:78-82 | an index in range gives that character, a negative one counts from the end, anything before the front gives the first character, and anything at or past the end gives `""` |
| StdStr.CharAtIsIndex | std/str.rs:78-82 | within `[-len, len)` `char_at` is `homun_idx` |
| StdStr.IsDigit | std/str.rs:58 | every character in `'0'..'9'`, so the empty string passes |
| StdStr.IsAlpha | std/str.rs:59 | every character alphabetic |
| StdStr.IsAlnum | std/str.rs:60 | every character alphabetic or numeric |
| StdStr.IsUpper | std/str.rs:61 | every character upper case |
| StdStr.IsLower | std/str.rs:62 | every character lower case |
| StdStr.ClassifiersVersusChars | std/str.rs:58-62 | these agree with the `chars` classifiers except on the empty string, which they all accept |
| StdStr.TrimStart | std/str.rs:14 | the result is a suffix of `s` that does not start with whitespace, and everything removed is whitespace |
| StdStr.TrimEnd | std/str.rs:15 | the result is a prefix of `s` that does not end with whitespace, and everything removed is whitespace |
| StdStr.Trim | std/str.rs:13 | the result starts and ends with something other than whitespace, and is a run of `s` with only whitespace cut away on either side |
| StdStr.TrimCuts | std/str.rs:13-15 | cutting leading whitespace and then trailing whitespace leaves a run with whitespace cut from both sides |
| StdStr.TrimNoOp | std/str.rs:13 | text with no whitespace at either end is unchanged by `trim` |
| StdStr.ParseI32 | std/str.rs:85 | any parsed value is within `i32` and came from text ending in a digit |
| StdStr.ParseSigned | std/str.rs:85 | a sign (`""`, `"+"` or `"-"`) followed by one or more digits parses to the signed decimal value when it is inside `i32`, and fails outside it |
| StdStr.ParsedShape | std/str.rs:85 | conversely, every text that parses is one optional sign followed by one or more digits, and its value is the signed decimal value |
| StdStr.ParseInt | std/str.rs:84-86 | always within `i32`: the trimmed text's value when it parses, and 0 when it does not |
| StdStr.Digits | std/str.rs:85 | the decimal digits of `n` are non-empty digits whose value is `n` |
| StdStr.ParseDigits | std/str.rs:85 | the digits of an in-range number, with or without a minus sign, parse back to it |
| StdStr.ParseFormat | std/str.rs:84-86 | parsing a printed `i32` gives it back |
| StdStr.ParseIntTrims | std/str.rs:84-86 | `" 42\n"` parses as 42 |
| StdStr.ParseIntRejectsLetters | std/str.rs:84-86 | `"abc"` reads as 0 |
| StdStr.ParseIntRejectsBareSign | std/str.rs:84-86 | `"+"` reads as 0 |
| StdMod.Range | std/mod.rs:9 | `a..b` has `b - a` elements (none when `b <= a`), element `k` being `a + k` |
| StdMod.RangeTo | std/mod.rs:8 | `0..n` is `0, ..., n-1`, empty for `n <= 0` |
| StdMod.Stepped | std/mod.rs:10-18 | stride 0 yields nothing; otherwise it starts at `s`, steps by `st`, stays in `[s, e)` going up or `(e, s]` going down, and is empty exactly when `s` is already past `e` |
| StdMod.SteppedMonotone | std/mod.rs:14-15 | strictly increasing for a positive stride, strictly decreasing for a negative one |
| StdMod.SteppedUnit | std/mod.rs:9-18 | stride 1 is the plain range |
| StdMod.SteppedRange | std/mod.rs:10-18 | the counter loop yields exactly `Stepped(s, e, st)` |
| StdMod.LenConcat | std/mod.rs:28-32 | the length of a vector or a string adds over concatenation |
| StdMod.LenMapUpdate | std/mod.rs:29 | inserting a key adds one to a map's length exactly when the key is new; removing one takes one away exactly when it was present |
| StdMod.LenSetUpdate | std/mod.rs:30 | adding an element adds one to a set's length exactly when it is new; removing one takes one away exactly when it was present |
| StdMod.LenSetOfDistinct | std/mod.rs:28-30 | a vector without repeats has as many distinct elements as elements |
| StdMod.LenSetOfVec | std/mod.rs:28-30 | a vector has at least as many elements as it has distinct ones |
| StdMod.Filter | std/mod.rs:36-40 | no longer than the input, every kept element satisfies the predicate, and the kept elements are a sub-multiset |
| StdMod.FilterPartition | std/mod.rs:36-40 | the lengths of what a filter keeps and what its negation keeps add up to the length of the input |
| StdMod.FilterConcat | std/mod.rs:38 | filtering distributes over concatenation, so order is kept |
| StdMod.FilterMembers | std/mod.rs:38 | a value is kept exactly when it is in the input and satisfies the predicate |
| StdMod.Map | std/mod.rs:42-46 | the same length, element `k` being `f(v[k])` |
| StdMod.Reduce | std/mod.rs:48-52 | `None` exactly on the empty vector, and a one-element vector gives its element |
| StdMod.FoldSnoc | std/mod.rs:50 | one more element folds in on the right |
| StdMod.ReduceSnoc | std/mod.rs:48-52 | `reduce(v + [x]) == f(reduce(v), x)` |
| StdMod.ReduceSumExample | std/mod.rs:50 | summing `[1, 2, 3]` gives 6 |
| StdCollection.SortInPlace | std/collection.rs:8 | the array ends sorted and a permutation of what it held |
| StdCollection.InsertInto | std/collection.rs:8 | one insertion step extends the sorted prefix by one and keeps the multiset |
| StdCollection.Sorted | std/collection.rs:7-9 | a non-decreasing permutation of the argument |
| StdCollection.SortedUnique | std/collection.rs:7-9 | two sorted sequences with equal multisets are equal, so `sorted(v)` depends on the multiset of `v` only |
| StdCollection.Reversed | std/collection.rs:11-13 | the swapping loop over a copy yields exactly the reverse of `v` (element `i` is `v[len - 1 - i]`) |
| StdCollection.ReverseInvolution | std/collection.rs:11-13 | reversing twice gives the vector back |
| StdCollection.Enumerate | std/collection.rs:15-17 | the same length as the input |
| StdCollection.EnumerateEntries | std/collection.rs:15-17 | entry `i` is `(i, v[i])`: the first components are `range!(len)`, the second are `v` |
| StdCollection.ZipProjections | std/collection.rs:19-21 | the two projections of `zip(a, b)` are `a` and `b` cut to the shorter length |
| StdCollection.Flatten | std/collection.rs:23-25 | the length is the sum of the inner lengths |
| StdCollection.FlattenConcat | std/collection.rs:24 | flattening respects concatenation of the outer vector |
| StdCollection.FlattenMembers | std/collection.rs:24 | a value is in the result exactly when it is in one of the inner vectors |
| StdCollection.Any | std/collection.rs:27-29 | true exactly when some element satisfies the predicate |
| StdCollection.All | std/collection.rs:31-33 | true exactly when every element satisfies the predicate |
| StdCollection.Count | std/collection.rs:35-37 | at most the length |
| StdCollection.CountBounds | std/collection.rs:27-37 | the count is 0 exactly when `any` is false, and the length exactly when `all` is true |
| StdCollection.CountConcat | std/collection.rs:35-37 | counts add over concatenation |
| StdCollection.Dedup | std/collection.rs:39-42 | every value of the result occurs in the input and every value of the input occurs in the result |
| StdCollection.DedupSnoc | std/collection.rs:40-41 | one more element is kept exactly when it has not occurred before |
| StdCollection.DedupNoDuplicates | std/collection.rs:39-42 | no value appears twice in the result |
| StdCollection.DedupOfDistinct | std/collection.rs:39-42 | a vector without repeats comes back unchanged |
| StdCollection.Unique | std/collection.rs:39-42 | the filter with its `seen` set yields exactly `Dedup(v)` |
| StdCollection.IndexOf | std/collection.rs:44-46 | -1 or a position holding the item, with no earlier position holding it (none at all for -1) |
| StdCollection.IndexOfAgreesWithContains | std/collection.rs:44-46 | -1 exactly when `homun_contains` is false |
| StdCollection.Vec.Push | std/collection.rs:48-50 | the item is appended and nothing else changes |
| StdCollection.Vec.Pop | std/collection.rs:52-54 | `None` on empty; otherwise the last element is returned and removed |
| StdCollection.Vec.Remove | std/collection.rs:56-59 | the normalised position must exist; its element is returned and removed, the rest closing up in order |
| StdCollection.RemovePosition | std/collection.rs:57 | a non-negative index is kept, a negative one counts from the end, and anything before the front is 0 |
| StdCollection.RemoveKeepsTheRest | std/collection.rs:58 | removing a position deletes exactly one copy of its element |
| StdCollection.PushPop | std/collection.rs:48-54 | push then pop returns the item and restores the vector |
| StdCollection.RemoveLast | std/collection.rs:56-59 | `remove(v, -1)` on `[10, 20, 30]` returns 30 and leaves `[10, 20]` |
| StdMath.Abs | std/math.rs:5-7 | non-negative, and `x` or `-x`, `x` itself when non-negative |
| StdMath.Min | std/math.rs:9 | at most both arguments, one of them, the first on a tie |
| StdMath.Max | std/math.rs:10 | at least both arguments, one of them, the first on a tie |
| StdMath.Clamp | std/math.rs:12-14 | below `lo` gives `lo`, above `hi` gives `hi`, within the bounds gives `x`, and with `lo <= hi` the result lies in `[lo, hi]` |
| StdMath.ClampIdempotent | std/math.rs:12-14 | clamping twice is clamping once |
| StdMath.ClampIsMinOfMax | std/math.rs:12-14 | with ordered bounds `clamp(x, lo, hi) == min(max(x, lo), hi)` |
| StdMath.MinMaxPair | std/math.rs:9-10 | `min + max` is the sum of the pair and `max - min` its distance |
| StdDict.Keys | std/dict.rs:5-7 | every key of the map exactly once, `|d|` of them |
| StdDict.Entries | std/dict.rs:13-15 | every key exactly once, each paired with its value |
| StdDict.Values | std/dict.rs:9-11 | `|d|` values, one per key in some order of the keys |
| StdDict.KeyOrderIsKeys | std/dict.rs:5-7 | the keys listed are exactly the map's keys |
| StdDict.LenMapCountsKeys | std/dict.rs:5-7 | a list of a map's keys without repeats has the map's `len!`, so it is a key order |
| StdDict.Dict.Insert | std/dict.rs:17-19 | the key maps to the new value, overwriting any old one, and no other key changes |
| StdDict.Dict.RemoveKey | std/dict.rs:21-23 | a present key's value is returned and only that key removed; an absent key gives `None` and no change |
| StdDict.InsertThenRemove | std/dict.rs:17-23 | inserting an absent key and removing it returns the value and restores the map |
| StdDeque.Deque.constructor | std/deque.rs:7-9 | a new deque is empty |
| StdDeque.Deque.PushFront | std/deque.rs:11-13 | the item goes in front |
| StdDeque.Deque.PushBack | std/deque.rs:15-17 | the item goes at the back |
| StdDeque.Deque.PopFront | std/deque.rs:19-21 | `None` on empty; otherwise the first element is returned and removed |
| StdDeque.Deque.PopBack | std/deque.rs:23-25 | `None` on empty; otherwise the last element is returned and removed |
| StdDeque.Deque.IsEmpty | std/deque.rs:27-29 | empty exactly when the length is 0 |
| StdDeque.QueueOrder | std/deque.rs:15-21 | back pushes come out of the front first in, first out, then `None` |
| StdDeque.StackOrder | std/deque.rs:11-25 | front pushes come out of the front last in, first out |
| StdStack.StackNew | std/stack.rs:5-7 | a fresh, empty stack |
| StdStack.StackPush | std/stack.rs:9-11 | the item becomes the top |
| StdStack.StackPop | std/stack.rs:13-15 | `None` on empty; otherwise the top is returned and removed |
| StdStack.StackPeek | std/stack.rs:17-19 | the top, or `None` exactly when empty, without any change |
| StdStack.StackIsEmpty | std/stack.rs:21-23 | empty exactly when the length is 0, and exactly when peeking gives `None` |
| StdStack.PushPeekPop | std/stack.rs:9-19 | after a push, peek and pop both give the item, and the stack is as before |
| StdStack.Lifo | std/stack.rs:9-15 | two pushes pop in reverse order, then `None` |

## Left out

- **Integer widths.** Rust's `i32`, `i64` and `usize` widths are not modelled; integers are unbounded. This affects:
  - `heap_len` and `count` returning `as i32`;
  - `enumerate`'s `i as i32`;
  - `len!`'s `as i32`;
  - the `i32` arithmetic in `substr`, `char_at` and `remove` on texts or vectors longer than `i32::MAX`;
  - `re_match`'s `end as i32`;
  - an overflowing counter in the stepped `range!`.

  Only `homun_slice`'s `i64` sentinel and `parse_int`'s `i32` range are modelled.
- Builtin.Slice: a step of `i64::MIN` is not given its own case. In the source, `-step` overflows there, and the model treats it as the stride `2^63`.
- Builtin.IndexMap: the two map key types (`i32` and `&str` keys) are one generic function.
- PriorityQueue.Heap: the binary-heap layout inside `BinaryHeap` is not modelled. The queue is an unordered sequence whose multiset is the observable state, and a pop scans for the top entry.
- PriorityQueue.Heap: `Rc` reference counting and `RefCell` borrow checking are the mechanics of sharing. They are not modelled; sharing is plain object aliasing.
- The five-push, five-pop heap test is not restated as a concrete scenario. `PriorityQueue.Heap.PopUntilEmpty` proves the general ordered-pop property instead.
- Regex: the regular-expression engine itself is not modelled. It is the parameter `Regex.Engine`, of which only `start <= end <= |haystack|` is assumed.
- Regex: the `thread_local!` mechanics are not modelled: the per-thread cache is an object held by the caller.
- Unicode tables: `char::is_alphabetic`, `is_alphanumeric`, `is_uppercase` and `is_lowercase` are parameters (`Chars.Tables`).
- Text and byte offsets:
  - text is taken to be ASCII, so the panics when a byte offset splits a character (`&text[pos..]`, `&pad[..]`) are not modelled;
  - for the same reason, `s.get` failing on a character boundary, which makes `substr` return `""`, is not modelled;
  - `char::is_whitespace` in `trim` is the fixed White_Space list.
- StdStr.PadLeft, StdStr.PadRight: a negative width (cast to a huge `usize`) and an empty fill when padding is needed both panic in the source. They are preconditions.
- StdStr.StdRepeat: a negative count on a non-empty string (a capacity overflow panic in the source) is a precondition.
- StdCollection.Sorted: modelled over integers rather than any `Ord` type. Rust's merge sort is modelled by an insertion sort with the same result, which `StdCollection.SortedUnique` pins down.
- std/str.rs is modelled only in part:
  - `split`, `join`, `replace`, `to_upper`, `to_lower`, `chars`, `lines` and `is_empty` are not modelled. They forward to library routines, and two of them depend on Unicode case tables.
  - `parse_float` is not modelled, because it involves floating point.
- Also not modelled: `str_of` (`Display` formatting), the macros `slice!`, `homun_in!`, `dict!` and `set!` (pure forwarding to modelled functions or to map and set construction), and std/io.rs (file and process I/O).
