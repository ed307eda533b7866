# RC-MACH-PRO variable table plugin, modelled in Dafny

This project models the monitoring plugin in `agent_based/rc_mach_pro_var_table.py`.
The plugin handles the RC-MACH-PRO controller's SNMP variable table in three stages:

- **Parse** (`VarTable.Parse`, a method with a loop, specified by the fold `VarTable.Parsed`).
  It turns the rows `(var_val_int, var_type, var_val_float, var_obj_name)` into a section.
  The section maps `"RC-MACH-PRO " + var_obj_name` to a record of the four fields.
  Rows with an empty object name are skipped, and a later row with the same name overwrites the earlier one.
  The float column is re-encoded as colon-separated, two-digit, lowercase hex of each character's code (module `Hex`).
- **Discovery** (`VarTable.Discover`) yields one item per key of the section.
- **Check** (`VarTable.Check`) looks up one item.
  It yields nothing for an absent item.
  Otherwise it converts the value and type fields with `int()` (module `Decimal`) and looks up the type's label in `RC_TYPE_MAP`.
  It then yields one OK result with the summary `type: <label>(<type>), int: <int>, float: <hex>`.
  A non-numeric field raises `ValueError` and an unknown type code raises `KeyError`; both are modelled as the `Raises` outcome.

Files: `options.dfy` (Option), `decimal.dfy` (`int()` / `str()` on decimal literals), `hex.dfy` (the
`'{:02x}'` / `':'.join` encoder and its decoder), `var_table.dfy` (rows, section, parse, discover, check).

Three details of the code that the model reproduces:

- The summary shows the converted integers, not the raw field text: `"007"` prints as `7` and `"+5"` as `5`.
  See `VarTable.ExampleLeadingZeros`, `Decimal.ParseIntLeadingZero` and `Decimal.ParseIntSigned`.
- `'{:02x}'` gives two digits only for codes below 256; larger codes give three or more digits.
  `Hex.Format02x` models both cases.
- The extra argument `'x'` passed to `str.format` on line 52 is ignored by Python, and the model ignores it too.

## Model

| member | source | states |
|---|---|---|
| `Hex.HexDigits` | agent_based/rc_mach_pro_var_table.py:52 | the hex digits of a code are lowercase; there is exactly one digit below 16 and at least three from 256 up |
| `Hex.Format02x` | agent_based/rc_mach_pro_var_table.py:52 | `'{:02x}'`: lowercase digits; for a code below 256, exactly the high and low nibble digits; above that, more than two digits |
| `Hex.DigitValue` | agent_based/rc_mach_pro_var_table.py:52 | a character is read as a hex digit exactly when it is a lowercase hex digit, and `Digit` gives that character back |
| `Hex.EncodeOctetsLength` | agent_based/rc_mach_pro_var_table.py:52 | for codes below 256, the empty string gives length 0 and n >= 1 characters give length 3n-1 |
| `Hex.EncodeOctetsAt` | agent_based/rc_mach_pro_var_table.py:52 | character k becomes the two lowercase hex digits at positions 3k and 3k+1, and `:` stands at 3k+2 between segments |
| `Hex.DecodeByte` | agent_based/rc_mach_pro_var_table.py:52 | a decoded two-digit segment is below 256 and re-formats to the same two characters |
| `Hex.DecodeEncode` | agent_based/rc_mach_pro_var_table.py:52 | decoding the encoding of a string with codes below 256 gives back its character codes |
| `Hex.FromCodes` | agent_based/rc_mach_pro_var_table.py:52 | the string built from codes below 256 has exactly those codes |
| `Hex.EncodeDecode` | agent_based/rc_mach_pro_var_table.py:52 | every string the decoder accepts is exactly the encoding of the codes it yields |
| `Hex.EncodeOctetsExample` | agent_based/rc_mach_pro_var_table.py:52 | "AB" encodes to "41:42" |
| `Decimal.FormatNat` | agent_based/rc_mach_pro_var_table.py:94 | `str()` of a natural number is a non-empty digit string with no leading zero, except "0" itself |
| `Decimal.ParseIntAcceptsLiterals` | agent_based/rc_mach_pro_var_table.py:90-91 | `int()` succeeds exactly on an optional sign followed by one or more digits (no digit-count limit; see Left out) |
| `Decimal.ParseFormatRoundTrip` | agent_based/rc_mach_pro_var_table.py:90-94 | `str(i)` is canonical and `int(str(i)) == i` for every integer |
| `Decimal.FormatParseRoundTrip` | agent_based/rc_mach_pro_var_table.py:90-94 | `str(int(s)) == s` exactly when s is canonical (no `+`, no leading zero, no `-0`) |
| `Decimal.ParseIntSigned` | agent_based/rc_mach_pro_var_table.py:90-91 | `int()` reads `+d` as the value of the digit string d and `-d` as its negation |
| `Decimal.ParseIntLeadingZero` | agent_based/rc_mach_pro_var_table.py:90 | a leading zero does not change the integer `int()` reads |
| `VarTable.ItemNameInjective` | agent_based/rc_mach_pro_var_table.py:43 | two object names with the same item name are the same name |
| `VarTable.Absorb` | agent_based/rc_mach_pro_var_table.py:42-53 | a row with an empty object name leaves the section unchanged; a named row adds or overwrites its key with the int and type copied verbatim, the hex-encoded float and the name, and no other entry changes |
| `VarTable.Parse` | agent_based/rc_mach_pro_var_table.py:36-55 | the loop builds exactly the fold `Parsed` of the rows, and its keys are exactly the prefixed non-empty object names |
| `VarTable.ParsedKeys` | agent_based/rc_mach_pro_var_table.py:38-55 | the section's key set is exactly `"RC-MACH-PRO " + n` for the non-empty object names n of the table |
| `VarTable.ParsedLastWriteWins` | agent_based/rc_mach_pro_var_table.py:40-53 | the record under a name is the one made from the last row with that name, with all four fields from that row |
| `VarTable.ParsedEntryFromRow` | agent_based/rc_mach_pro_var_table.py:40-53 | every record in the section was made from some named row of the table, under that row's item name |
| `VarTable.ParsedIgnoresUnnamed` | agent_based/rc_mach_pro_var_table.py:42-45 | removing a row with an empty object name from anywhere in the table does not change the section |
| `VarTable.Discover` | agent_based/rc_mach_pro_var_table.py:81-83 | one item per key of the section: every item is a key, every key is an item, no item twice |
| `VarTable.Check` | agent_based/rc_mach_pro_var_table.py:86-96 | nothing exactly for an absent item; a result is always OK; a result exactly when both fields are integer literals and the type code is 0 or 1 |
| `VarTable.CheckYieldsSummary` | agent_based/rc_mach_pro_var_table.py:74-96 | for type 0 or 1, one OK result with summary `type: analog/digital(<t>), int: <i>, float: <hex>`, using the converted integers |
| `VarTable.CheckSummaryNumbers` | agent_based/rc_mach_pro_var_table.py:90-94 | the numbers in a summary are canonical literals for the same integers `int()` read from the fields |
| `VarTable.CheckRejectsValue` | agent_based/rc_mach_pro_var_table.py:90 | a present item whose value field is not an integer literal raises `ValueError` on that field |
| `VarTable.CheckRejectsType` | agent_based/rc_mach_pro_var_table.py:91 | a present item with a good value field and a type field that is not an integer literal raises `ValueError` on the type field |
| `VarTable.CheckRejectsUnknownType` | agent_based/rc_mach_pro_var_table.py:94 | a present item whose type code is an integer other than 0 and 1 raises `KeyError` with that code |
| `VarTable.ExampleSensor` | agent_based/rc_mach_pro_var_table.py:36-96 | the row ("42", "0", "AB", "Sensor1") checks as `type: analog(0), int: 42, float: 41:42` |
| `VarTable.ExampleLeadingZeros` | agent_based/rc_mach_pro_var_table.py:36-96 | the row ("007", "1", "A", "Pump2") checks as `type: digital(1), int: 7, float: 41` |
| `VarTable.ExampleUnknownType` | agent_based/rc_mach_pro_var_table.py:36-96 | a row with type "2" makes the check raise `KeyError(2)` |

## Left out

- Registration with the host (`register.snmp_section`, `register.check_plugin`, lines 58-71 and 99-104) is not modelled. It is host integration and has no logic.
- The `exists('.1.3.6.1.4.1.15255')` detect predicate and the `SNMPTree` fetch descriptor are not modelled. They are SNMP transport configuration owned by the host.
- The host types are simplified: `Service` is the item string, and `Result` is a datatype of a state and a summary. `Metric` is imported but never used.
- A table row is a datatype with exactly four fields. The fetch descriptor always asks for four columns, so the tuple unpacking on line 40 cannot fail.
- The parser creates an empty record for a new name and then sets its four fields. The model stores the complete record in one update, which gives the same section after every row.
- `Decimal.ParseInt` does not model all of Python's `int()` leniency. It accepts only an optional `+`/`-` followed by ASCII digits. Python also allows surrounding whitespace, `_` between digits and non-ASCII Unicode digits.
- Decimal.ParseInt: has no limit on the number of digits. Python 3.11 and later (and the 2022 security releases 3.7.14, 3.8.14, 3.9.14 and 3.10.7) raise `ValueError` in `int()` for a literal of more than 4300 digits, leading zeros included, and the same limit applies to `str()` of such an integer. The limit depends on the Python version and on `sys.set_int_max_str_digits`, so the model reads every digit string, and `VarTable.Check` yields a result where such a Python raises at line 90 or 91.
- ParseIntAcceptsLiterals: states that every signed digit string is accepted, which is weaker than the source's behaviour on Python versions with the 4300-digit limit described in the line above.
- The hex length, shape and round-trip lemmas assume character codes below 256. `Hex.Format02x` itself also covers larger codes.
- Generators are not modelled lazily. Discovery returns a sequence and the check returns one `Outcome` (nothing, one result, or an exception).
- `VarTable.Discover` does not fix the order of the items. Python yields them in the dict's insertion order, but the model only says which items are yielded.
- Calling the parser twice on the same rows gives the same section. This follows from `VarTable.Parse` being tied to the function `VarTable.Parsed`, so it has no lemma of its own.
