# jzon position bookkeeping, in Dafny

jzon is a Python JSON library meant as a drop-in for the standard `json`
module. Its design describes a full lexer and recursive-descent decoder, but
in this version `loads` and `dumps` only validate their arguments and then
raise `NotImplementedError`. This model follows the code. It covers the two
parts that exist:

- **`UTF8PositionMapper`** (`src/jzon/_utf8_mapper.py`). It converts between
  character offsets and UTF-8 byte offsets in one text. Construction makes one
  pass over the characters. It records a checkpoint `byte offset -> character
  offset` every `checkpoint_interval` characters, plus one for the end of the
  text, and it notes whether the text is pure ASCII. `byte_to_char` starts from
  the last checkpoint at or before its target and walks forward.
  `char_to_byte` starts from the checkpoint at the multiple of the interval
  below its target and adds up character widths. Both return their argument
  unchanged on ASCII text.
- **`JSONDecodeError` and the argument checks** (`src/jzon/__init__.py`). The
  error record checks `msg` and `pos`. It derives a 1-based line and column
  from `(doc, pos)` and renders `"{msg} at line {lineno}, column {colno}"`.
  `ParseConfig` and `EncodeConfig` reject flags that are not `bool`. `loads`
  rejects input that is not `str` before it builds its configuration.

Files:

- `utf8.dfy` (module `Utf8`): the UTF-8 encoding of section 3 of RFC 3629 for
  one scalar value and for a text. This is what `str.encode("utf-8")` and
  `len(char.encode("utf-8"))` compute. It also defines `PrefixBytes(text, c)`,
  the byte length of `text[:c]`.
- `utf8_mapper.dfy` (module `Utf8Mapper`): the class `Utf8PositionMapper`.
  Its `checkpoints` field is a sequence of entries in insertion order, updated
  with `DictSet`, which has the semantics of a Python dict assignment. The
  module also holds the functions that specify the two queries and the lemmas
  about them.
- `jzon.dfy` (module `Jzon`): Python arguments as a `PyObject` datatype (so
  "not a `str`" and "not a `bool`" can be expressed), `str.count`,
  `str.rfind`, the error record, both configurations, and `loads`.

Texts are Dafny `string`s. Dafny's `char` is a Unicode scalar value, so
"no lone surrogates" (the case where `str.encode` would raise) is carried by
the type. The query methods have no `modifies` clause, so Dafny proves that
they change none of `text`, `checkpoints`, `isAsciiOnly` and
`checkpointInterval`.

## Model

| member | source | states |
|---|---|---|
| `Utf8.EncodeChar` | src/jzon/_utf8_mapper.py:49 | the encoding of one character has 1, 2, 3 or 4 bytes for code points up to 0x7F, 0x7FF, 0xFFFF and above (RFC 3629 table); its lead byte announces that length and the rest are continuation bytes |
| `Utf8.DecodeEncodeChar` | src/jzon/_utf8_mapper.py:49 | decoding the bytes of a character gives back its code point, so the encoding loses nothing |
| `Utf8.EncodeCharInjective` | src/jzon/_utf8_mapper.py:49 | two characters with the same encoding are the same character |
| `Utf8.Encode` | src/jzon/_utf8_mapper.py:24 | the encoding of a text (`text_bytes`) has between one and four bytes per character |
| `Utf8.EncodeAppend` | src/jzon/_utf8_mapper.py:24 | encoding a concatenation is concatenating the encodings |
| `Utf8.PrefixBytesStep` | src/jzon/_utf8_mapper.py:48-49 | advancing over character `c` adds exactly that character's encoded width to the byte offset |
| `Utf8.PrefixBytesGrowth` | src/jzon/_utf8_mapper.py:48-49 | between character offsets `i <= j` the byte offset grows by at least `j - i` and at most `4 * (j - i)`, so it is strictly increasing |
| `Utf8.PrefixOfEncoding` | src/jzon/_utf8_mapper.py:24 | the byte offset of character `c` lies on a character boundary of `text_bytes`: the bytes before it are exactly the encoding of `text[:c]` |
| `Utf8.AsciiIffOneBytePerChar` | src/jzon/_utf8_mapper.py:41-46 | a text has no code point above 127 exactly when its encoding has one byte per character |
| `Utf8Mapper.Lookup` | src/jzon/_utf8_mapper.py:26 | a dictionary lookup finds nothing exactly when no entry has the key, and otherwise finds the value of an entry with that key |
| `Utf8Mapper.DictSet` | src/jzon/_utf8_mapper.py:39 | `d[k] = v` makes `k` look up `v` and leaves every other key's lookup unchanged; a key not yet present is appended at the end |
| `Utf8Mapper.DictSetExisting` | src/jzon/_utf8_mapper.py:39 | assigning to a key already present replaces its entry in place, so the dictionary keeps its order; the scan never takes this path (see `MarksExtend`) |
| `Utf8Mapper.MarksOnCurve` | src/jzon/_utf8_mapper.py:36-39 | each checkpoint recorded during the scan is at a multiple of the interval below the scan position, and maps that offset's prefix byte length to it |
| `Utf8Mapper.MarksExtend` | src/jzon/_utf8_mapper.py:38-39 | each assignment in the scan adds a new key at the end, because every earlier key is a smaller byte offset |
| `Utf8Mapper.CheckpointsFromMarks` | src/jzon/_utf8_mapper.py:51-52 | the final assignment for the end of the text also adds a new key |
| `Utf8Mapper.CheckpointsOnCurve` | src/jzon/_utf8_mapper.py:32-52 | after construction every checkpoint maps the byte length of `text[:c]` to `c`, where `c` is within the text and is a multiple of the interval or the text length |
| `Utf8Mapper.MarksAscending` | src/jzon/_utf8_mapper.py:36-39 | the checkpoints of the scan are recorded in strictly ascending character order |
| `Utf8Mapper.CheckpointsAscending` | src/jzon/_utf8_mapper.py:71-77 | the checkpoint dictionary's insertion order is strictly ascending in byte offsets and in character offsets, which the scan in `byte_to_char` relies on when it stops at the first larger key |
| `Utf8Mapper.MarkRecorded` | src/jzon/_utf8_mapper.py:38-39 | once the scan has passed a multiple `c` of the interval, the checkpoint for `c` is in the dictionary |
| `Utf8Mapper.LookupAscending` | src/jzon/_utf8_mapper.py:26 | in a dictionary whose keys ascend, looking up an entry's key finds that entry's value |
| `Utf8Mapper.CheckpointAtInterval` | src/jzon/_utf8_mapper.py:38-39 | after construction, every character offset `c <= len(text)` with `c % interval == 0` is stored under the byte length of `text[:c]` |
| `Utf8Mapper.CheckpointAtEnd` | src/jzon/_utf8_mapper.py:51-52 | after construction the total byte length always maps to `len(text)`, and an empty text yields exactly `{0: 0}` |
| `Utf8Mapper.FirstReaching` | src/jzon/_utf8_mapper.py:87-91 | walking forward from character `from` stops at the first character whose byte offset reaches the target, or at the end of the text |
| `Utf8Mapper.CharOffsetOf` | src/jzon/_utf8_mapper.py:79-93 | the general path of `byte_to_char` gives the smallest character offset whose byte offset is at least the target, capped at `len(text)` |
| `Utf8Mapper.FirstReachingSkip` | src/jzon/_utf8_mapper.py:67-85 | starting the walk at a checkpoint at or before the target (or at 0) gives the same answer as walking from the start of the text, whichever such checkpoint is used |
| `Utf8Mapper.AsciiPrefixBytes` | src/jzon/_utf8_mapper.py:42-46 | on ASCII text the byte offset of every character offset is that offset |
| `Utf8Mapper.AsciiFastPath` | src/jzon/_utf8_mapper.py:63-65 | on ASCII text the identity results of both fast paths (`:64-65`, `:105-106`) agree with the general computation for every offset inside the text |
| `Utf8Mapper.CharToByteIsPrefixLength` | src/jzon/_utf8_mapper.py:95-128 | for `0 <= c <= len(text)`, `char_to_byte(c)` is the UTF-8 byte length of `text[:c]`, on ASCII and non-ASCII text alike |
| `Utf8Mapper.CharToByteMonotone` | src/jzon/_utf8_mapper.py:122-126 | `char_to_byte` never decreases as its argument grows |
| `Utf8Mapper.ByteToCharGalois` | src/jzon/_utf8_mapper.py:79-93 | on non-ASCII text, for a byte offset inside the encoding and a character offset inside the text, `byte_to_char(b) <= c` holds exactly when `b <= char_to_byte(c)` |
| `Utf8Mapper.RoundTrip` | src/jzon/_utf8_mapper.py:54-128 | for every `0 <= c <= len(text)`, `byte_to_char(char_to_byte(c)) == c` |
| `Utf8Mapper.ByteToCharRoundsUp` | src/jzon/_utf8_mapper.py:88-91 | a byte offset strictly inside a multi-byte character maps to the character after it |
| `Utf8Mapper.ByteToCharMonotone` | src/jzon/_utf8_mapper.py:88-93 | on non-ASCII text `byte_to_char` never decreases as its argument grows and never leaves `0..len(text)` |
| `Utf8Mapper.RoundDownToMultiple` | src/jzon/_utf8_mapper.py:113-115 | `(c // k) * k` is the multiple of `k` at or below `c` and within `k` of it |
| `Utf8Mapper.Utf8PositionMapper.constructor` | src/jzon/_utf8_mapper.py:16-30 | the new mapper keeps the text and interval, its `text_bytes` is the text's encoding, its checkpoints are exactly those described above, and its ASCII flag is set exactly when every code point is at most 127 |
| `Utf8Mapper.Utf8PositionMapper.BuildCheckpoints` | src/jzon/_utf8_mapper.py:32-52 | starting from an empty dictionary and a set flag, the scan leaves the checkpoints described above and clears the flag exactly when some code point is above 127 |
| `Utf8Mapper.Utf8PositionMapper.ByteToChar` | src/jzon/_utf8_mapper.py:54-93 | returns its argument on ASCII text, and otherwise the smallest character offset whose byte offset reaches the argument, capped at `len(text)` |
| `Utf8Mapper.Utf8PositionMapper.CharToByte` | src/jzon/_utf8_mapper.py:95-128 | returns its argument on ASCII text, and otherwise the byte length of `text[:c]` with `c` clamped into `0..len(text)` |
| `Jzon.Prefix` | src/jzon/__init__.py:44-46 | the slice `doc[0:pos]` is a prefix of `doc` of length `min(pos, len(doc))` |
| `Jzon.Count` | src/jzon/__init__.py:44 | `s.count(ch)` is the number of occurrences of `ch` in `s` (its multiplicity) |
| `Jzon.RFind` | src/jzon/__init__.py:46 | `s.rfind(ch)` is the index of an occurrence of `ch` with no later occurrence, or -1 when `ch` does not occur |
| `Jzon.LineNumber` | src/jzon/__init__.py:44 | `lineno` is one more than the number of line feeds in `doc[0:pos]`, which is also 1 for an empty `doc` |
| `Jzon.ColumnNumber` | src/jzon/__init__.py:45-49 | `colno` is at least 1 and equals `pos - k`, where `k` is the index of the last line feed in `doc[0:pos]`, or -1 when there is none (which covers the empty `doc` fallback `pos + 1`) |
| `Jzon.NatToString` | src/jzon/__init__.py:56 | the decimal rendering of a line or column number is a non-empty digit string that denotes that number; it starts with `0` only when it is exactly `"0"` |
| `Jzon.NewJsonDecodeError` | src/jzon/__init__.py:37-53 | a non-string `msg` raises TypeError, then a non-integer or negative `pos` raises ValueError, and otherwise the record keeps `msg`, `doc` and `pos` and derives `lineno >= 1` and `colno >= 1` |
| `Jzon.BoolPosition` | src/jzon/__init__.py:40 | a `bool` position passes the `isinstance(pos, int)` check and the record stores it as 0 or 1 |
| `Jzon.Message` | src/jzon/__init__.py:56 | the rendered text begins with the message itself |
| `Jzon.MessageDeterminesPosition` | src/jzon/__init__.py:56 | for the same message, equal renderings mean equal line and column, so `"{msg} at line {lineno}, column {colno}"` can be read back |
| `Jzon.FirstLineIff` | tests/test_fail.py:112-116 | with no line feed before `pos` the error is on line 1 at column `pos + 1`; either of those facts in turn implies there is no line feed before `pos` |
| `Jzon.LineColumnStep` | src/jzon/__init__.py:44-49 | one character further on, a line feed moves to the next line at column 1, and any other character keeps the line and adds one to the column |
| `Jzon.LineColumnExamples` | tests/test_fail.py:190-212 | `"!"` at 0 is line 1 column 1; `" !"` at 1 is line 1 column 2; `"\n!"` at 1 is line 2 column 1 |
| `Jzon.MultiLineExample` | tests/test_fail.py:196 | `"\n  \n\n     !"` at 10 is line 4 column 6 |
| `Jzon.MessageExample` | tests/test_fail.py:214-218 | that error renders as `"Expecting value at line 4, column 6"` |
| `Jzon.NewParseConfig` | src/jzon/__init__.py:75-77 | a parse configuration is built exactly when `strict` is a `bool`, otherwise TypeError "strict must be a boolean"; `use_decimal` is kept unchecked |
| `Jzon.NewEncodeConfig` | src/jzon/__init__.py:96-102 | an encode configuration is built exactly when `skipkeys`, `ensure_ascii` and `sort_keys` are `bool`s; the first that is not is named in the TypeError; `indent` and `separators` are kept unchecked |
| `Jzon.ConfigRebuild` | src/jzon/__init__.py:59-102 | rebuilding either configuration from the fields of a built one succeeds and gives the same configuration |
| `Jzon.Loads` | src/jzon/__init__.py:105-115 | non-`str` input raises TypeError whatever the configuration; with `str` input, a `strict` that is not a `bool` raises TypeError "strict must be a boolean" from the parse configuration, and valid arguments raise NotImplementedError; no value is ever returned |

## Left out

- Decoding and encoding themselves: `loads` and `dumps` raise
  `NotImplementedError` in the code (`src/jzon/__init__.py:115`, `:125`), so
  there is no lexer, parser or encoder to model. The model does not invent
  one.
- `dumps`, `load` and `dump` are not modelled. `dumps` only builds an
  `EncodeConfig` (modelled by `NewEncodeConfig`) and raises. `load` and `dump`
  are file-object wrappers.
- The hook fields (`parse_float`, `parse_int`, `parse_constant`,
  `object_pairs_hook`, `default`) are not modelled. They are stored but never
  called.
- Keyword arguments that `ParseConfig`, `EncodeConfig` or `loads` do not know
  are not modelled. Python rejects them with a TypeError from the generated
  `__init__`. `Loads` takes `strict` and `use_decimal` as parameters.
- `Jzon.NewJsonDecodeError` does not model a `doc` that is not a string. The
  source never checks `doc`. A falsy one (`None`, `0`, `b""`, `[]`) takes the
  `if self.doc` fallback (`src/jzon/__init__.py:44`, `:47`) and gives line 1
  and column `pos + 1`. A truthy one reaches `count`/`rfind`, which raise or
  behave as that type's methods do.
- `Jzon.NewJsonDecodeError` stores the integer value of a `bool` `pos`, where
  Python keeps the `True`/`False` object itself.
- `Utf8Mapper.Utf8PositionMapper.constructor` requires
  `checkpoint_interval > 0`. An interval of 0 raises ZeroDivisionError at
  `src/jzon/_utf8_mapper.py:38` on non-empty text. On empty text nothing
  divides and both queries take the ASCII fast path. The source accepts a
  negative interval: Python's `%` and `//` take a negative divisor. In that
  case `(c // k) * k` at `:113-115` rounds up rather than down (c = 5,
  k = -2 gives 6), so on non-ASCII text `char_to_byte` can return the byte
  offset of a later character. The model excludes both.
- The failure of `str.encode("utf-8")` on lone surrogates is not modelled,
  because a Dafny `string` cannot hold them.
- `Utf8Mapper.Utf8PositionMapper.ByteToChar` does not state which checkpoint
  the scan settles on (the nearest one at or before the target). It proves
  that the result is the same for every checkpoint at or before the target.
  The choice only affects how far the walk goes.
- The fast paths are modelled as they are written. On ASCII text both queries
  return their argument even outside `0..len(text)`. On other text they clamp
  it. `ByteToCharGalois` and `RoundTrip` are therefore stated for offsets
  inside the text.
- The message of the non-`str` TypeError from `loads` always says "not bytes",
  whatever the argument's type. The model keeps this wording.
