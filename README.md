# jsonic core in Dafny

A verified model of the deterministic core of jsonic, a Java JSON library:

- **JSONReader.getValue** (`src/net/arnx/jsonic/JSONReader.java`): builds one value from a stream of parser
  events, without recursion, on two growable stacks (`istack` for where each open container starts, `ostack`
  for finished values). It also covers `iexpand`/`oexpand` and the state checks of the typed getters.
  `JsonReader` holds the specification as a step function over an abstract frame. `ReaderStacks` holds the
  same loop on real arrays and counters (`class Stacks`, `class Reader`), proved to follow that step function.
- **The serialiser of jsonic 1.2** (`jsonic-1.2/src/net/arnx/jsonic/Formatter.java`). `Formatter` holds the text
  of each value kind as functions: JSON string escaping, scalars, primitive arrays, lists and maps, with the
  pretty-printer and the guard against the root. `FormatterMethods` holds the formatters' appending loops,
  proved to write exactly that text.
- **The scalar converters of jsonic 1.2** (`jsonic-1.2/src/net/arnx/jsonic/Converter.java`).
  - `Converter`: the Map/List unwrapping, the primitive defaults, and the Boolean, Character, Byte, Short,
    Integer, Long, BigInteger, BigDecimal and CharSequence rules.
  - `Flatten`: `flattenProperties`, modelled as a class that owns the shared key buffer and the properties
    map.
- **Request-parameter trees** (`jsonic-1.2/src/net/arnx/jsonic/web/RESTServlet.java`), in `RestParams`:
  `parseParameter`, `getParameter` and `Route.mergeParameterMap`.
- **Naming-style conversion** in both copies of `ClassUtil` (`toUpperCamel`, `toLowerCamel`). `CamelCase` holds
  the shared specification. `ClassUtil` models `src/net/arnx/jsonic/util/ClassUtil.java` and `ClassUtil12`
  models `jsonic-1.2/src/net/arnx/jsonic/ClassUtil.java`.

Shared modules:

- `Base`: `Option`, `Result` and the Java exceptions as an `Error` value.
- `JavaText`: the parts of `java.lang` the core relies on. These are ASCII case mapping, `String.trim`,
  `Integer.parseInt`/`Long.parseLong` with their range checks, `Integer.toString`, `BigDecimal` text in both
  directions, and two's-complement wrap-around.
- `Values`: the Java objects the core reads and writes, as one datatype. Maps are insertion-ordered entry
  sequences with `LinkedHashMap.put` semantics, and a key of `None` is Java's `null` key.

Where the tests and the code disagree, the model follows the code:

- `test/net/arnx/jsonic/JSONTest.java:1451-1452` expects `"0"` to convert to `false`. The 1.2
  `BooleanConverter` (Converter.java:148-159) has no such rule, so the model gives `true`
  (`Converter.DigitsAreTrue`).
- One exception, recorded under Findings: for a `BigDecimal`, `Converter.ToBoolean` uses the corrected reading
  (every zero is `false`). The code as written (`0.0` is `true`) is `Converter.DecimalTruthAsWritten`.
- A `Boolean` converted to `byte` or `short` yields the `int` 1 or 0 (Converter.java:211, 259). The model keeps
  that result as an `Integer`.

## Model

| member | source | states |
|---|---|---|
| Values.PutSpec | src/net/arnx/jsonic/JSONReader.java:158-165 | `LinkedHashMap.put`: the key then maps to the new value and every other key is unchanged. A present key keeps its position; a new key is appended. Distinct keys stay distinct. |
| Values.PutAllLastWins | src/net/arnx/jsonic/JSONReader.java:163-165 | After putting a sequence of pairs, the last pair's key maps to the last pair's value. |
| Values.PutAllFresh | src/net/arnx/jsonic/JSONReader.java:163-165 | Putting pairs with distinct keys keeps them all, in order. |
| JsonReader.Open | src/net/arnx/jsonic/JSONReader.java:125-129 | START_OBJECT/START_ARRAY push the current height of the value stack and leave the values alone. The stack invariant holds: starts non-decreasing, each within the value stack. |
| JsonReader.Push | src/net/arnx/jsonic/JSONReader.java:130-142 | A NAME or scalar event appends its value, records whether it was a NAME, and keeps the invariant. |
| JsonReader.DropName | src/net/arnx/jsonic/JSONReader.java:135-137 | A suppressed null after a NAME removes exactly the top value (`olen--`) and keeps the invariant. |
| JsonReader.Close | src/net/arnx/jsonic/JSONReader.java:143-154 | END_* pops the innermost start. The values from it up are replaced by one value, so the stack ends at start + 1, and everything below start is unchanged. |
| JsonReader.Step | src/net/arnx/jsonic/JSONReader.java:123-172 | One turn of the loop keeps the stack invariant. An END_* with no open container is an error (Java: ArrayIndexOutOfBoundsException). |
| JsonReader.Run | src/net/arnx/jsonic/JSONReader.java:123-173 | A run of steps keeps the stack invariant. |
| JsonReader.PairUpFlatten | src/net/arnx/jsonic/JSONReader.java:155-169 | Pairing a key, value, key, value slice gives the map built by `put` in order: a repeated key keeps its first position and takes its last value. |
| JsonReader.RunValue | src/net/arnx/jsonic/JSONReader.java:123-173 | The events of any JSON value push exactly one value, its rebuilt form, and leave the open containers as they were. |
| JsonReader.RunEntry | src/net/arnx/jsonic/JSONReader.java:130-142 | A map member pushes its name and value. With null suppression a null member pushes nothing, so the key is absent from the map. |
| JsonReader.RunItems | src/net/arnx/jsonic/JSONReader.java:143-154 | The elements of an array are pushed in order, and nulls in arrays are kept. |
| JsonReader.BuildEvents | src/net/arnx/jsonic/JSONReader.java:111-176 | For every JSON value, getValue on its event stream returns the value with maps rebuilt by `put` (and null members dropped under null suppression). |
| JsonReader.BuildEventsExact | src/net/arnx/jsonic/JSONReader.java:111-176 | A JSON value whose maps have distinct keys (and no null members under null suppression) is returned unchanged. |
| ReaderStacks.Expand | src/net/arnx/jsonic/JSONReader.java:182-194 | `iexpand`/`oexpand` return the same array when min is within the length. Otherwise they return a fresh copy of length `len * 3 / 2 + 1` that keeps the prefix. When min ≤ length + 1 the result is long enough. |
| ReaderStacks.PairSlice | src/net/arnx/jsonic/JSONReader.java:163-165 | The pairing loop over `ostack[start..olen)` yields the ordered map of the specification, or fails on a dangling key. |
| ReaderStacks.Stacks.constructor | src/net/arnx/jsonic/JSONReader.java:116-122 | Both stacks start empty and no NAME has been seen. |
| ReaderStacks.Stacks.Start | src/net/arnx/jsonic/JSONReader.java:125-129 | The array version of Open. |
| ReaderStacks.Stacks.PushValue | src/net/arnx/jsonic/JSONReader.java:139-141 | The array version of Push. The value stack grows when full. |
| ReaderStacks.Stacks.DropName | src/net/arnx/jsonic/JSONReader.java:136-137 | The array version of DropName. |
| ReaderStacks.Stacks.CloseArray | src/net/arnx/jsonic/JSONReader.java:143-154 | The array version of Step on END_ARRAY: the slice becomes one list, in order. |
| ReaderStacks.Stacks.CloseObject | src/net/arnx/jsonic/JSONReader.java:155-169 | The array version of Step on END_OBJECT: the slice becomes one ordered map. |
| ReaderStacks.Stacks.Apply | src/net/arnx/jsonic/JSONReader.java:124-172 | One turn of the switch on arrays equals Step on the abstract frame. |
| ReaderStacks.Reader.Next | src/net/arnx/jsonic/JSONReader.java:41-44 | `next` consumes one event and makes it current, or ends the stream. |
| ReaderStacks.Reader.GetValue | src/net/arnx/jsonic/JSONReader.java:111-176 | Without a current event it fails with IllegalState. Otherwise it returns Build of the remaining stream and consumes it. |
| ReaderStacks.Reader.GetString | src/net/arnx/jsonic/JSONReader.java:71-77 | Returns the string exactly when the current event is STRING, else IllegalState. |
| ReaderStacks.Reader.GetNumber | src/net/arnx/jsonic/JSONReader.java:79-85 | Returns the number exactly when the current event is NUMBER, else IllegalState. |
| ReaderStacks.Reader.GetBoolean | src/net/arnx/jsonic/JSONReader.java:87-93 | Returns the boolean exactly when the current event is BOOLEAN, else IllegalState. |
| ReaderStacks.Reader.GetComment | src/net/arnx/jsonic/JSONReader.java:95-101 | Returns the comment exactly when the current event is COMMENT, else IllegalState. |
| ReaderStacks.Reader.GetWhitespace | src/net/arnx/jsonic/JSONReader.java:103-109 | Returns the whitespace exactly when the current event is WHITESPACE, else IllegalState. |
| ReaderStacks.Reader.GetObject | src/net/arnx/jsonic/JSONReader.java:55-61 | IllegalState unless the current event is START_OBJECT; otherwise getValue's result cast to a map. |
| ReaderStacks.Reader.GetArray | src/net/arnx/jsonic/JSONReader.java:63-69 | IllegalState unless the current event is START_ARRAY; otherwise getValue's result cast to a list. |
| ReaderStacks.AsObject | src/net/arnx/jsonic/JSONReader.java:57 | The cast passes a map or null and fails otherwise. |
| ReaderStacks.GetObjectOfMap | src/net/arnx/jsonic/JSONReader.java:55-61 | Reading the events of a JSON object with getObject gives back the rebuilt map. |
| ReaderStacks.GetArrayOfList | src/net/arnx/jsonic/JSONReader.java:63-69 | Reading the events of a JSON array with getArray gives back the rebuilt list. |
| Formatter.EscapeCode | jsonic-1.2/src/net/arnx/jsonic/Formatter.java:56-72 | The escape table: a negative entry exists only below 128. |
| Formatter.HexChar | jsonic-1.2/src/net/arnx/jsonic/Formatter.java:99-102 | An upper-case hexadecimal digit whose value is d. |
| Formatter.CopiedIff | jsonic-1.2/src/net/arnx/jsonic/Formatter.java:86-107 | A character is copied verbatim exactly when it needs no escape. Characters of 128 and above, and `<`/`>` outside SCRIPT mode, are copied. |
| Formatter.EscapedAppend | jsonic-1.2/src/net/arnx/jsonic/Formatter.java:81-109 | Escaping works character by character: the escape of a concatenation is the concatenation of the escapes. |
| Formatter.EscapedClean | jsonic-1.2/src/net/arnx/jsonic/Formatter.java:58-71 | The escaped body holds no raw control character and no 0x7F, and in SCRIPT mode no `<` or `>`. |
| Formatter.UnescapeEscaped | jsonic-1.2/src/net/arnx/jsonic/Formatter.java:81-109 | Reading the escaped body back as a JSON string (section 7 of RFC 8259) gives the original string. |
| Formatter.QuotedRoundTrip | jsonic-1.2/src/net/arnx/jsonic/Formatter.java:81-109 | `serialize` writes a quote, a body that reads back as the string, and a quote. |
| Formatter.LocaleTag | jsonic-1.2/src/net/arnx/jsonic/Formatter.java:431-435 | `replace('_', '-')`: same length, no `_` left, and every other character kept. |
| Formatter.LocaleDashes | jsonic-1.2/src/net/arnx/jsonic/Formatter.java:428-436 | A locale is written as a quoted string with `-` wherever `Locale.toString` has `_`. |
| Formatter.ByteUnsigned | jsonic-1.2/src/net/arnx/jsonic/Formatter.java:412-416 | A byte is written as its unsigned value `b & 0xFF`. |
| Formatter.DateMillis | jsonic-1.2/src/net/arnx/jsonic/Formatter.java:160-174 | A date without a DateFormat is its milliseconds, inside `new Date(...)` in SCRIPT mode only. |
| Formatter.ListLayout | jsonic-1.2/src/net/arnx/jsonic/Formatter.java:447-477 | A list or Object[] is `[`, then its elements in order, then `]`. Each element has a comma before it (except the first) and, in pretty mode, a newline and level + 1 tabs. An element that is the root is written as `null`. A closing newline and level tabs come only when the list is non-empty. |
| Formatter.MapLayout | jsonic-1.2/src/net/arnx/jsonic/Formatter.java:561-599 | A map is `{`, the kept entries as `"key":value` (`": "` in pretty mode) laid out like list elements, then `}`. Commas and the closing line count only the entries written. |
| Formatter.KeptEntriesFilter | jsonic-1.2/src/net/arnx/jsonic/Formatter.java:567-574 | An entry is written exactly when its key is not null, its value is not the root, and it is not a null under null suppression. |
| Formatter.EmptyContainers | jsonic-1.2/src/net/arnx/jsonic/Formatter.java:182-192 | Empty lists, arrays and primitive arrays print `[]`, and a map with nothing to write prints `{}`, in pretty mode too. |
| Formatter.TextClean | jsonic-1.2/src/net/arnx/jsonic/Formatter.java:33-600 | The text of any value holds no raw control character, except the newlines and tabs of pretty mode. |
| FormatterMethods.Serialize | jsonic-1.2/src/net/arnx/jsonic/Formatter.java:81-109 | The loop that copies runs between escapes writes exactly the quoted, escaped text. |
| FormatterMethods.FormatValue | jsonic-1.2/src/net/arnx/jsonic/Formatter.java:33-600 | Formatting any value other than the root writes its text, and returns true exactly for the container formatters. |
| FormatterMethods.FormatScalar | jsonic-1.2/src/net/arnx/jsonic/Formatter.java:36-175 | The scalar formatters (Null, Plain, String, Number, Date, Byte, Locale, char[]) write the scalar's text. |
| FormatterMethods.FormatBools | jsonic-1.2/src/net/arnx/jsonic/Formatter.java:180-195 | A boolean[] is written inline as `[a,b]`, with `", "` in pretty mode and no newline. |
| FormatterMethods.FormatInts | jsonic-1.2/src/net/arnx/jsonic/Formatter.java:228-298 | A short[], int[] or long[] is written inline in the same way. |
| FormatterMethods.FormatItems | jsonic-1.2/src/net/arnx/jsonic/Formatter.java:450-477 | The list loop writes exactly the list's text. |
| FormatterMethods.FormatMap | jsonic-1.2/src/net/arnx/jsonic/Formatter.java:561-599 | The map loop, whose counter advances only for written entries, writes exactly the map's text. |
| FormatterMethods.FormatEntry | jsonic-1.2/src/net/arnx/jsonic/Formatter.java:576-590 | One written entry is comma, lead, quoted key, colon and the value's text one level deeper. |
| Converter.Bits | jsonic-1.2/src/net/arnx/jsonic/Converter.java:194-375 | byte, short, int and long are 8, 16, 32 and 64 bits wide. |
| Converter.DefaultValue | jsonic-1.2/src/net/arnx/jsonic/Converter.java:56-75 | A primitive target gets false, `'\0'` or 0, and a wrapper target gets null. |
| Converter.Unwrap | jsonic-1.2/src/net/arnx/jsonic/Converter.java:133-138 | A map stands for its value at the null key, a list for its first element, and a missing key or an empty list for null. |
| Converter.UnwrapPutNull | jsonic-1.2/src/net/arnx/jsonic/Converter.java:133-134 | A map with x put under the null key unwraps to x, whatever else it holds. |
| Converter.ToBoolean | jsonic-1.2/src/net/arnx/jsonic/Converter.java:132-162 | The result is a Boolean, or null for a wrapper target. A null input gives the default. Only an object without a modelled `toString` fails. The per-branch values are stated by BooleanOfBoolean, BooleanOfNumber, BooleanOfLong, BooleanOfDecimal and BooleanOfString. The BigDecimal branch takes the corrected reading of the Findings row (any zero is false); the code as written is `DecimalTruthAsWritten`. |
| Converter.BooleanOfString | jsonic-1.2/src/net/arnx/jsonic/Converter.java:148-159 | A string gives false exactly when its trimmed text is empty, f/false/no/off in any case, or exactly `NaN`. A one-element list gives the same. |
| Converter.BooleanOfVisible | jsonic-1.2/src/net/arnx/jsonic/Converter.java:149-159 | A string without surrounding blanks is judged as it stands. |
| Converter.FalseWordsAnyCase | jsonic-1.2/src/net/arnx/jsonic/Converter.java:151-154 | Any capitalisation of f, false, no or off gives false. |
| Converter.OnlyExactNaN | jsonic-1.2/src/net/arnx/jsonic/Converter.java:155 | Only the exact spelling `NaN` is false; "nan" or "NAN" is true. |
| Converter.DigitsAreTrue | jsonic-1.2/src/net/arnx/jsonic/Converter.java:148-159 | A string of decimal digits, "0" included, gives true. |
| Converter.BooleanOfLongMultiple | jsonic-1.2/src/net/arnx/jsonic/Converter.java:144-147 | A Long goes through `intValue()`, so a multiple of 2^32 gives false. A BigInteger is false only when zero. |
| Converter.BooleanOfBoolean | jsonic-1.2/src/net/arnx/jsonic/Converter.java:140-141 | A Boolean is returned unchanged. |
| Converter.BooleanOfNumber | jsonic-1.2/src/net/arnx/jsonic/Converter.java:146-147 | A Byte, Short or Integer gives true exactly when it is non-zero. |
| Converter.BooleanOfLong | jsonic-1.2/src/net/arnx/jsonic/Converter.java:146-147 | A Long gives true exactly when `intValue()`, its low 32 bits, is non-zero, that is when it is not a multiple of 2^32. |
| Converter.BooleanOfDecimal | jsonic-1.2/src/net/arnx/jsonic/Converter.java:142-143 | A BigDecimal gives false exactly when it is zero, at any scale (corrected reading; see Findings). |
| Converter.DecimalTruthScaledZero | jsonic-1.2/src/net/arnx/jsonic/Converter.java:143 | As written, `0.0` is not `BigDecimal.ZERO` and so is true. The two readings agree on every non-zero decimal. |
| Converter.CodeUnit | jsonic-1.2/src/net/arnx/jsonic/Converter.java:179 | `(char)` of a 16-bit value is that character; a surrogate code unit has no model. |
| Converter.ValueExact | jsonic-1.2/src/net/arnx/jsonic/Converter.java:213-351 | `*ValueExact` succeeds exactly when the decimal is integral and in range, and returns its integer value. Otherwise it is an ArithmeticException. |
| Converter.ToCharacter | jsonic-1.2/src/net/arnx/jsonic/Converter.java:168-191 | A non-empty string gives its first character, and null or an empty string gives the default. Errors are only ArithmeticException, unsupported and unmodelled inputs. |
| Converter.CharacterRejects | jsonic-1.2/src/net/arnx/jsonic/Converter.java:176-189 | true gives `'1'`. A Character or Integer input is UnsupportedOperation. An empty string gives `'\0'` or null. |
| Converter.CharacterOfBoolean | jsonic-1.2/src/net/arnx/jsonic/Converter.java:176-177 | true gives `'1'` and false gives `'0'`, for the primitive and the wrapper target alike. |
| Converter.CharacterOfDecimal | jsonic-1.2/src/net/arnx/jsonic/Converter.java:178-179 | An integral BigDecimal at any scale within int range gives the character of its low 16 bits. |
| Converter.RadixDigits | jsonic-1.2/src/net/arnx/jsonic/Converter.java:312-320 | One leading `+` is skipped, and then `0x` selects radix 16. |
| Converter.IntegralText | jsonic-1.2/src/net/arnx/jsonic/Converter.java:216-366 | In the byte (216-234), short (264-275), int (309-321) and long (354-366) string branches: after an optional `+`, `0x` selects radix 16 (the byte converter lower-cases the text first). The result is an error exactly when the digits do not parse or their value leaves the int range (the long range for long). Otherwise it is that value cut to the target width, so the short converter's `(short)` cast of the int and the byte converter's `num - 256` for values above 127 are both the two's-complement wrap. |
| Converter.IntegralOfString | jsonic-1.2/src/net/arnx/jsonic/Converter.java:216-234 | A string gives a number of the target kind within its range. A blank string gives the default, and a malformed one is a NumberFormatException. |
| Converter.ToIntegral | jsonic-1.2/src/net/arnx/jsonic/Converter.java:197-373 | The Byte, Short, Integer and Long converters. Unwrapped null gives the default. A non-Boolean result is of the target kind and in range. Errors are only Arithmetic, NumberFormat and UnsupportedOperation. The per-branch values are stated by IntegralOfBoolean, IntegralOfNumber, IntegralOfDecimal and IntegralOfString. |
| Converter.IntegralOfBoolean | jsonic-1.2/src/net/arnx/jsonic/Converter.java:210-211 | true gives 1 and false gives 0 (likewise at lines 258-259, 303-304 and 348-349): an Integer for the byte, short and int converters, a Long for the long converter. |
| Converter.IntegralOfNumber | jsonic-1.2/src/net/arnx/jsonic/Converter.java:214-215 | Any other Number (likewise at lines 262-263, 307-308 and 352-353) goes through `byteValue`/`shortValue`/`intValue`/`longValue`: its value cut to the target width by two's-complement wrap, and unchanged when it already fits. |
| Converter.IntegralOfDecimal | jsonic-1.2/src/net/arnx/jsonic/Converter.java:212-213 | A BigDecimal converts exactly when it is integral and in range, to its integer value, so `5.00` gives 5 and `5.01` fails. |
| Converter.ScaledDecimal | jsonic-1.2/src/net/arnx/jsonic/Converter.java:305-306 | An integer written at any scale converts to itself when in range and is an ArithmeticException otherwise. |
| Converter.IntegerOfText | jsonic-1.2/src/net/arnx/jsonic/Converter.java:309-321 | Every int's decimal text converts back to it. |
| Converter.PlusIntegerOfText | jsonic-1.2/src/net/arnx/jsonic/Converter.java:312-315 | A leading `+` is skipped. |
| Converter.LongOfText | jsonic-1.2/src/net/arnx/jsonic/Converter.java:354-366 | Every long's decimal text converts back to it. |
| Converter.HexOfText | jsonic-1.2/src/net/arnx/jsonic/Converter.java:317-363 | `0x` and `+0x` followed by hexadecimal digits read in radix 16. |
| Converter.ShortIsIntCast | jsonic-1.2/src/net/arnx/jsonic/Converter.java:264-275 | The short converter on a string is the int converter followed by the `(short)` cast: the same errors and the same null, and an int n becomes the short `Wrap(n, 16)`. |
| Converter.ShortOfFF | test/net/arnx/jsonic/JSONTest.java:1514-1515 | `"0xFF"` and `"+0xFF"` convert to the short 255, for `short` and, at lines 1533-1534, for `Short` alike. |
| Converter.ByteWraps | jsonic-1.2/src/net/arnx/jsonic/Converter.java:224-231 | The decimal text of a value from 128 to 255 converts to the byte `value - 256`. The hexadecimal and mixed-case forms are covered by ByteHexWraps and ByteIgnoresCase. |
| Converter.ByteIgnoresCase | jsonic-1.2/src/net/arnx/jsonic/Converter.java:216 | The byte converter lower-cases its trimmed text, so two texts that differ only in letter case convert to the same result. |
| Converter.ByteHexWraps | jsonic-1.2/src/net/arnx/jsonic/Converter.java:216-231 | Hexadecimal digits in either case, after `0x` or `+0x` with the `x` in either case, whose value is 128 to 255 convert to the byte `value - 256`. |
| Converter.ByteOfFF | test/net/arnx/jsonic/JSONTest.java:1478-1479 | `"0xFF"` and `"+0xFF"` convert to the byte -1, that is `(byte)0xFF`. |
| Converter.ToBigInteger | jsonic-1.2/src/net/arnx/jsonic/Converter.java:448-488 | The result is a BigInteger or null. Null gives null and a BigInteger is returned as is. The other branches are stated by BigIntegerOfBoolean, BigIntegerOfDecimal, BigIntegerOfNumber and BigIntegerOfString. |
| Converter.BigIntegerOfBoolean | jsonic-1.2/src/net/arnx/jsonic/Converter.java:461-462 | true gives `BigInteger.ONE` and false gives `BigInteger.ZERO`. |
| Converter.BigIntegerOfDecimal | jsonic-1.2/src/net/arnx/jsonic/Converter.java:463-464 | `toBigIntegerExact`: an integral BigDecimal gives its integer value, and any other is an ArithmeticException. |
| Converter.BigIntegerOfNumber | jsonic-1.2/src/net/arnx/jsonic/Converter.java:467-468 | A Byte, Short, Integer or Long gives `BigInteger.valueOf(longValue())`, its own value. |
| Converter.BigIntegerOfString | jsonic-1.2/src/net/arnx/jsonic/Converter.java:469-483 | A blank string gives null. Otherwise, after an optional `+`, `0x` selects radix 16; the result is a BigInteger exactly when the digits parse in that radix, and its value is theirs. Else it is a NumberFormatException. |
| Converter.BigIntegerOfText | jsonic-1.2/src/net/arnx/jsonic/Converter.java:469-481 | Every integer's decimal text converts back to it. |
| Converter.BigIntegerOfHex | jsonic-1.2/src/net/arnx/jsonic/Converter.java:472-478 | `0x` or `+0x` followed by hexadecimal digits gives their radix-16 value. |
| Converter.ToBigDecimal | jsonic-1.2/src/net/arnx/jsonic/Converter.java:494-520 | A BigDecimal is returned as is and null gives null. Any other number is UnsupportedOperation. |
| Converter.BigDecimalOfString | jsonic-1.2/src/net/arnx/jsonic/Converter.java:504-516 | A blank string gives null. Otherwise it gives a BigDecimal, whose scale fits an int, or a NumberFormatException. Which BigDecimal is stated by BigDecimalOfUnsigned and BigDecimalOfNegative, with the value of the text from JavaText.MagnitudeOfParts and JavaText.MagnitudeOfPoint. |
| Converter.BigDecimalOfText | jsonic-1.2/src/net/arnx/jsonic/Converter.java:508-514 | Every integer's decimal text converts to that integer at scale 0. |
| Converter.BigDecimalDropsPlus | jsonic-1.2/src/net/arnx/jsonic/Converter.java:509-513 | A leading `+` is dropped before `new BigDecimal`: `+t` converts as `t` does. |
| Converter.BigDecimalOfUnsigned | jsonic-1.2/src/net/arnx/jsonic/Converter.java:508-513 | Text with visible ends and no sign converts, with or without one leading `+`, to the BigDecimal its unsigned part reads as. |
| Converter.BigDecimalOfNegative | jsonic-1.2/src/net/arnx/jsonic/Converter.java:508-513 | After a `-` the same text converts to that BigDecimal negated, at the same scale. |
| JavaText.MagnitudeOfParts | jsonic-1.2/src/net/arnx/jsonic/Converter.java:511-513 | For `new BigDecimal`, digits, a point, digits, `E` and an int exponent x read as the unscaled value of all the digits at scale (number of fraction digits) - x. The text starts with a digit or the point and ends visibly (`JavaText.PartsVisible`). |
| JavaText.MagnitudeOfPoint | jsonic-1.2/src/net/arnx/jsonic/Converter.java:511-513 | Digits, a point and digits without an exponent read as the unscaled value of all the digits at scale (number of fraction digits), so `5.00` is 500 at scale 2. |
| JavaText.DecimalExponentOverflow | jsonic-1.2/src/net/arnx/jsonic/Converter.java:511-513 | `new BigDecimal` rejects an exponent outside the int range: digits followed by `e` and such an exponent do not parse. |
| Converter.ToCharSequence | jsonic-1.2/src/net/arnx/jsonic/Converter.java:755-766 | Null (after unwrapping) gives null, and a value with a modelled `toString` gives that text; a string is returned as is. The only error is a value whose `toString` is not modelled. |
| Converter.CharSequenceOfInt | jsonic-1.2/src/net/arnx/jsonic/Converter.java:755-766 | An Integer converts to its text, and that text converts back to the Integer. |
| Flatten.Join | jsonic-1.2/src/net/arnx/jsonic/Converter.java:1189-1191 | A `.` goes before a segment only when the key buffer is non-empty. |
| Flatten.StoreAppend | jsonic-1.2/src/net/arnx/jsonic/Converter.java:1186-1207 | Writing two runs of leaves is writing the first, then the second unless the first threw. |
| Flatten.StoreSucceeds | jsonic-1.2/src/net/arnx/jsonic/Converter.java:1205 | The walk completes exactly when every leaf has a text: no null leaf and no value without a modelled `toString`. |
| Flatten.StoreKeys | jsonic-1.2/src/net/arnx/jsonic/Converter.java:1186-1207 | A completed walk adds exactly the leaves' dotted paths to the properties. |
| Flatten.StoreOthers | jsonic-1.2/src/net/arnx/jsonic/Converter.java:1186-1207 | A completed walk leaves every other key as it was. |
| Flatten.StoreLastWins | jsonic-1.2/src/net/arnx/jsonic/Converter.java:1205 | Under a path written more than once, the last leaf's text is kept. |
| Flatten.LeavesShape | jsonic-1.2/src/net/arnx/jsonic/Converter.java:1187-1206 | Every leaf is a scalar (no map, no list) whose segments extend those it was collected under. |
| Flatten.DescendIsLeaf | jsonic-1.2/src/net/arnx/jsonic/Converter.java:1187-1206 | Every scalar reached along some path of map keys and list indices is written, under that path. |
| Flatten.LeafDescends | jsonic-1.2/src/net/arnx/jsonic/Converter.java:1187-1206 | Every leaf written is a scalar reached along its path: the walk invents nothing. |
| Flatten.ChildKey | jsonic-1.2/src/net/arnx/jsonic/Converter.java:1189-1193 | After appending a segment the buffer holds the child's path, and `setLength(pos)` restores the parent's. |
| Flatten.Flattener.constructor | jsonic-1.2/src/net/arnx/jsonic/Converter.java:1104 | An empty key buffer and empty properties. |
| Flatten.Flattener.Flatten | jsonic-1.2/src/net/arnx/jsonic/Converter.java:1186-1207 | The recursive walk restores the key buffer and leaves the properties and the exception exactly as writing the value's leaves in order would. |
| Flatten.Flattener.FlattenEntries | jsonic-1.2/src/net/arnx/jsonic/Converter.java:1187-1194 | The map branch: each entry under its key, in the map's order. |
| Flatten.Flattener.FlattenItems | jsonic-1.2/src/net/arnx/jsonic/Converter.java:1195-1203 | The list branch: each item under its index, in order. |
| Flatten.ToProperties | jsonic-1.2/src/net/arnx/jsonic/Converter.java:1102-1135 | A Properties target is filled from a map or list by the walk, from an empty key. |
| RestParams.PiecesRoundTrip | jsonic-1.2/src/net/arnx/jsonic/web/RESTServlet.java:463-480 | A name splits at each `.` or `[` into one more piece than separators, and rejoining them rebuilds the name. |
| RestParams.PiecesSepFree | jsonic-1.2/src/net/arnx/jsonic/web/RESTServlet.java:465-477 | No piece holds a separator. |
| RestParams.StripClose | jsonic-1.2/src/net/arnx/jsonic/web/RESTServlet.java:466-482 | A piece loses one trailing `]` and is otherwise kept. |
| RestParams.SplitName | jsonic-1.2/src/net/arnx/jsonic/web/RESTServlet.java:460-482 | The character loop with `start` and the previous character yields the keys to descend through and the last key: every piece with its `]` stripped. |
| RestParams.Suffix | jsonic-1.2/src/net/arnx/jsonic/web/RESTServlet.java:453-457 | A name ending in `[]` loses the suffix and is multi-valued, and no other name is. |
| RestParams.Fresh | jsonic-1.2/src/net/arnx/jsonic/web/RESTServlet.java:525-531 | A new key gets a list of the values for a `[]` name or several values, else the single value. No values and no `[]` is an ArrayIndexOutOfBoundsException. |
| RestParams.Add | jsonic-1.2/src/net/arnx/jsonic/web/RESTServlet.java:500-523 | A list grows by the values, and anything else becomes the first item of a new list. |
| RestParams.Inner | jsonic-1.2/src/net/arnx/jsonic/web/RESTServlet.java:467-476 | Descending finds an existing map, creates an empty one for a missing or null key, or puts a non-null old value under the new map's null key. |
| RestParams.InsertUnderNull | jsonic-1.2/src/net/arnx/jsonic/web/RESTServlet.java:467-476 | A segment whose key holds null gets a new map holding only the stored key; the null is not kept under the null key. |
| RestParams.AssignNew | jsonic-1.2/src/net/arnx/jsonic/web/RESTServlet.java:525-531 | A key seen for the first time receives the single value, or the list of all values. |
| RestParams.AssignGrows | jsonic-1.2/src/net/arnx/jsonic/web/RESTServlet.java:516-524 | A key holding a list gets the values appended, and one holding a scalar becomes `[old, values…]`. |
| RestParams.AssignUnderNull | jsonic-1.2/src/net/arnx/jsonic/web/RESTServlet.java:496-515 | A key holding a map passes the values to that map's null key, which grows or is created by the same rules. |
| RestParams.AssignOthers | jsonic-1.2/src/net/arnx/jsonic/web/RESTServlet.java:493-531 | Storing under one key leaves every other key unchanged. |
| RestParams.InsertReaches | jsonic-1.2/src/net/arnx/jsonic/web/RESTServlet.java:462-531 | Storing a parameter succeeds exactly when assigning its last key in the map the descent reaches does. That map is then found by following the keys. |
| RestParams.InsertOthers | jsonic-1.2/src/net/arnx/jsonic/web/RESTServlet.java:462-531 | Storing a parameter touches only the first key of its path. |
| RestParams.ParseParameter | jsonic-1.2/src/net/arnx/jsonic/web/RESTServlet.java:450-533 | Every request parameter is stored into the tree in order, and the first failure ends the parse. |
| RestParams.ParsePlainName | jsonic-1.2/src/net/arnx/jsonic/web/RESTServlet.java:450-533 | A plain name seen for the first time reads back, through getParameter, as its first value. |
| RestParams.GetParameter | jsonic-1.2/src/net/arnx/jsonic/web/RESTServlet.java:559-573 | An absent name gives null and a string is returned as is. A map's null entry is taken first, then a list's first item, and only a string is returned. |
| RestParams.AssignReads | jsonic-1.2/src/net/arnx/jsonic/web/RESTServlet.java:525-573 | A key stored for the first time reads as its first value, whether one value or a list was stored. |
| RestParams.AssignKeepsReading | jsonic-1.2/src/net/arnx/jsonic/web/RESTServlet.java:493-573 | More values never change what a key reads as. |
| RestParams.MergeGet | jsonic-1.2/src/net/arnx/jsonic/web/RESTServlet.java:600-629 | A new key takes the value as is. An existing key grows by one value by the list and null-key rules. Every other key is unchanged. |
| RestParams.MergeAllOthers | jsonic-1.2/src/net/arnx/jsonic/web/RESTServlet.java:599-632 | Keys the new map does not hold are left as they were. |
| RestParams.MergeKeepsReading | jsonic-1.2/src/net/arnx/jsonic/web/RESTServlet.java:599-632 | Merging never changes what an existing parameter reads as. |
| RestParams.Route.constructor | jsonic-1.2/src/net/arnx/jsonic/web/RESTServlet.java:544-549 | The route holds the given parameters. |
| RestParams.Route.MergeParameterMap | jsonic-1.2/src/net/arnx/jsonic/web/RESTServlet.java:599-632 | The parameters become the merge of the new map, entry by entry in its order, and the method returns the parameters themselves. |
| CamelCase.CamelSnoc | src/net/arnx/jsonic/util/ClassUtil.java:92-102 | One character read: a separator is dropped, and a kept character is upper-cased exactly when the flag is up. |
| CamelCase.CamelLength | src/net/arnx/jsonic/util/ClassUtil.java:92-102 | The output is as long as the input less its separators. Each output character is the kept input character, possibly upper-cased. |
| CamelCase.CamelIsStrip | jsonic-1.2/src/net/arnx/jsonic/ClassUtil.java:96-105 | Ignoring case, the output is the input with its separators removed. |
| CamelCase.CamelSepFree | src/net/arnx/jsonic/util/ClassUtil.java:92-102 | The output holds no separator. |
| CamelCase.CamelOfSepFree | src/net/arnx/jsonic/util/ClassUtil.java:92-102 | On a separator-free input only the first character can change. |
| ClassUtil.ToUpperCamel | src/net/arnx/jsonic/util/ClassUtil.java:89-104 | The loop, with its flag starting up and no fix-up, yields the camel-case output. |
| ClassUtil.ToLowerCamel | src/net/arnx/jsonic/util/ClassUtil.java:106-124 | The loop with its flag starting down, then an upper first character is lowered unless the second is upper too. |
| ClassUtil.UpperCamelFirst | src/net/arnx/jsonic/util/ClassUtil.java:91-103 | toUpperCamel upper-cases the first kept character. |
| ClassUtil.UpperCamelIdempotent | src/net/arnx/jsonic/util/ClassUtil.java:89-104 | toUpperCamel applied twice is applied once. |
| ClassUtil.LowerCamelKeeps | src/net/arnx/jsonic/util/ClassUtil.java:106-124 | A separator-free name whose first character is not upper case is returned unchanged. |
| ClassUtil.LowerCamelIdempotent | src/net/arnx/jsonic/util/ClassUtil.java:106-124 | toLowerCamel applied twice is applied once. |
| ClassUtil12.ToUpperCamel | jsonic-1.2/src/net/arnx/jsonic/ClassUtil.java:93-111 | The loop with its flag starting up, then an upper first character followed by a lower one is lowered. |
| ClassUtil12.ToLowerCamel | jsonic-1.2/src/net/arnx/jsonic/ClassUtil.java:113-131 | The loop with its flag starting down, then the same fix-up. |
| ClassUtil12.UpperCamelKeepsLowercase | jsonic-1.2/src/net/arnx/jsonic/ClassUtil.java:107-109 | As written, toUpperCamel returns a separator-free word starting with two lower-case letters, such as "abc", unchanged. |
| ClassUtil12.FlagOnlyFirst | jsonic-1.2/src/net/arnx/jsonic/ClassUtil.java:95-115 | The flag's start value only reaches the first kept character. |
| ClassUtil12.UpperLowerAgree | jsonic-1.2/src/net/arnx/jsonic/ClassUtil.java:93-131 | The two 1.2 functions agree on every character but the first. |

## Left out

- Parsers: `StrictParser`, `ScriptParser` and `TraditionalParser` are not part of this model. Their output is the
  input event sequence of `JsonReader`.
- `JSONReader.getValue(Class)`/`getValue(Type)`: `context.convertInternal`, the binding layer, is not part of
  this model.
- JsonReader.Step: a malformed stream is an `Err` value in three cases, which well-nested parser output never
  produces. An END_* without a START is `IndexOutOfBounds`, where Java throws ArrayIndexOutOfBoundsException.
  An object slice of odd length, a dangling key, is `Malformed`, where Java reads the stale slot above `olen`
  (or throws when the array ends there). A key slot holding anything but a string or null is `Malformed`, where
  Java `put`s that object as the key (see the `Values` line below). A stream with no events is
  `IllegalState`, Java's `type == null` check; a stream of only comments and whitespace gives `Ok(Null)`, as
  Java's `return ostack[0]` does.
- Values: map keys are strings or null. Integer keys (Converter.java:1156, the Map converter, which is left
  out) and other object keys, as Formatter.java:583 (`key.toString()`), flattenProperties
  (`key.append(entry.getKey())`, Converter.java:1191) and `Route.mergeParameterMap` (`Map<?,?>`) would accept,
  are not modelled.
- ReaderStacks.Stacks: the LinkedHashMap initial-capacity arithmetic is left out (lines 158-162). It does not
  affect contents.
- Formatter: `FloatFormatter` and the float/double array formatters (floating point) are left out.
- Formatter: every `NumberFormat`/`DateFormat` branch (java.text patterns) is left out.
- Formatter: the Object, DynaBean and DOM element formatters (reflection and DOM) are left out.
- Formatter: the Serializable, byte[] and Class formatters (Java serialisation, Base64, `Class.getName`) are
  left out.
- Formatter: Iterator, Iterable and Enumeration formatting run the same loop as lists. They are covered by
  `List`; the one-pass nature of iterators is not modelled.
- Formatter: the root guard compares only against the root (`SrcRef`). A cycle that does not pass through the
  root (a StackOverflowError in Java) cannot be built from the model's values.
- Formatter: a number is written with Java's `toString`. BigDecimal text follows `BigDecimal.toString`, and
  `Float`/`Double` are left out.
- Converter: the Float/Double converters and the Date/Calendar family are left out.
- Converter: the Pattern, TimeZone, Locale, File, URL, URI, UUID, Charset, Class, InetAddress and Enum converters
  are left out.
- Converter: the Array, Collection, Map and Object converters are left out (`json.create`, `postparse`,
  reflection). Only the Properties branch of the Map converter is kept.
- Converter: every `context.format(NumberFormat.class)` path is left out (no NumberFormat is configured).
- Converter.ToBoolean: `toString` of objects other than Boolean, Character, numbers, strings and locales
  (arrays, dates, maps reached after unwrapping) is NotModelled, an `Err`.
- Converter.ToBoolean: the BigDecimal branch follows the corrected reading of the Findings row (every zero is
  `false`); the scale-sensitive code as written, where `0.0` gives `true`, is `Converter.DecimalTruthAsWritten`.
- Converter.ToIntegral: digits are ASCII only. `Integer.parseInt`, `Long.parseLong`, `new BigInteger` and
  `new BigDecimal` also accept other Unicode decimal digits (through `Character.digit`/`Character.isDigit`),
  so `"١٢٣"` is a NumberFormatException in the model and 123 in Java. The same holds for ToBigInteger and
  ToBigDecimal.
- Converter.ToCharSequence: `toString` of arrays, dates and other objects without a modelled text, including a
  list or map reached after unwrapping, is NotModelled, an `Err`, where Java returns `value.toString()`.
- Converter.IntegralText: integer parsing follows JDK 7 and later, where `Integer.parseInt`, `Long.parseLong` and
  `new BigInteger` accept one leading `+`. On JDK 6 and earlier, `"++5"` (one `+` left after the converter
  skips the first) is a NumberFormatException, while the model reads 5. The same holds for ToBigInteger.
- Converter.ToCharacter: `s.charAt(0)` (Converter.java:183) returns a UTF-16 code unit, so a string starting
  with a supplementary character yields its high surrogate in Java. The model's strings are sequences of
  Unicode scalar values and it returns the whole first character.
- Converter.CodeUnit: Java `char` is a UTF-16 code unit. Dafny's `char` is a Unicode scalar value, so the
  surrogate range 0xD800-0xDFFF is an `Err` here.
- Converter.ToIntegral: `Number.byteValue`/`shortValue`/`intValue`/`longValue` of another integral kind wrap to
  the target width (modelled with `Wrap`). Float and Double inputs are left out.
- Flatten: `toString` of leaves that are arrays, dates or other objects is NotModelled and ends the walk, as the
  exception would.
- RestParams: the BigDecimal key coercion (RESTServlet.java:484-491) is left out, and final keys stay strings.
  The test `>= '9'` (evidently meant `<= '9'`) lets only names starting with '9' (or a non-ASCII digit)
  become BigDecimal keys.
- RestParams: parseParameter mutates nested maps and lists that may be shared (aliased) with other holders. The
  model rebuilds the tree as a value, so aliasing is not captured.
- RestParams.ParseParameter: the request map's iteration order is taken as the order of `pairs`.
- RestParams: a parameter's values array is taken as given. The servlet API promises it is non-empty; the model
  keeps the ArrayIndexOutOfBoundsException for an empty one.
- RestParams: `init`, `doREST`, `RouteMapping.init`/`matches` and `getComponentClass` are left out (servlet I/O,
  file streaming, `java.util.regex`).
- CamelCase: `Character.toUpperCase`/`toLowerCase`/`isUpperCase` are ASCII-only here. Non-ASCII letters are
  treated as caseless.
- ClassUtil and ClassUtil12: `findClass`, the class-loader caches, `getRawType`/`getResolvedType` and the
  reflective helpers are left out (class loading, java.lang.reflect).

## Findings

| source | as written | input that shows it | evidently intended | confidence | as-written member | corrected member |
|---|---|---|---|---|---|---|
| jsonic-1.2/src/net/arnx/jsonic/Converter.java:142-143 | `!value.equals(BigDecimal.ZERO)`; `BigDecimal.equals` compares the scale, so only `0` at scale 0 is false | the BigDecimal `0.0` (unscaled 0, scale 1) converts to `true` | every zero BigDecimal converts to `false` (`signum() != 0`) | not executed | Converter.DecimalTruthScaledZero | Converter.BooleanOfDecimal |
| jsonic-1.2/src/net/arnx/jsonic/ClassUtil.java:107-109 | toUpperCamel ends with the same fix-up as toLowerCamel, which lowers an upper first character followed by a lower one | `toUpperCamel("abc")` returns `"abc"` | toUpperCamel upper-cases the first letter (`"Abc"`), as the later `src/net/arnx/jsonic/util/ClassUtil.java:89-104` does | not executed | ClassUtil12.UpperCamelKeepsLowercase | ClassUtil.UpperCamelFirst |
