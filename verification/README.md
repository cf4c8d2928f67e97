# Logger and common helpers of the 2DGE engine, in Dafny

This project models two parts of the engine's core.

- **The logger** (`engine/src/Core/Logger.cpp`):
  - `LogInternal`: filters a record by level against the threshold `m_Level`;
  - shortens the calling function's name: the name is cut right after its first `lambda` and `>` is appended, then only the text after the last `:` is kept;
  - builds the `LogEntry`;
  - `GetLevelString` and `Print` build the non-Windows line `[LEVEL] file:line:function: message`;
  - `SetLevel` and `SetShouldLogToFile` update the logger's state.
- **The integer helpers of the common header** (`engine/src/Core/Common.h`):
  - `Max`, `Min`, `Clamp` and `Lerp`;
  - the bound-ordering step of `RandomRange`;
  - the XOR hash of a `std::pair`.

Files:

- `common.dfy`: module `Common`.
- `strings.dfy`: module `Wrappers` (the `Option` type; `None` stands for `npos`) and module `Strings`. `Strings` defines the `std::string` operations the logger uses:
  - `find`;
  - `find_last_of` for one character;
  - `std::to_string` of an unsigned number.
- `logger.dfy`: module `Logging`.
  - The `Logger` class holds the threshold and the file switch.
  - The name shortening is the method `ShortenFunctionName`, which follows the `find`, `substr` and `find_last_of` steps of `LogInternal`. It is proved equal to the function `ShortName`, and the properties are proved about `ShortName`.

The numeric values of `Logger::Level` are declared in `Logger.h`, which is not part of this model. A logger is therefore given them as a function `code: Level -> int`, required to give the seven levels distinct values (`DistinctCodes`). The `(char)` cast is modelled as a signed 8-bit conversion with wrap-around (`AsChar`).

## Model

| member | source | states |
|---|---|---|
| Logging.Logger.constructor | engine/src/Core/Logger.cpp:20-24 | given distinct level codes, a new logger's threshold is the char code of `All` and it logs to file |
| Logging.Logger.SetLevel | engine/src/Core/Logger.cpp:202 | the threshold becomes the char code of the given level, and nothing else changes |
| Logging.Logger.SetShouldLogToFile | engine/src/Core/Logger.cpp:204 | the file switch takes the given value, and nothing else changes |
| Logging.Logger.LogInternal | engine/src/Core/Logger.cpp:50-79 | a record whose char code is below the threshold's char code, or whose level is `All` or `Count`, yields no entry; any other record yields exactly one entry with the file, the shortened name, the text, the line and the level |
| Logging.AllAndCountNeverPass | engine/src/Core/Logger.cpp:58-59 | `All` and `Count` are dropped under every threshold |
| Logging.BelowThresholdDropped | engine/src/Core/Logger.cpp:55-56 | a level whose char code is below the threshold is dropped |
| Logging.PassesAtOwnThreshold | engine/src/Core/Logger.cpp:55-59 | with the threshold set to the char code of a level other than `All` or `Count`, that level's records pass |
| Logging.AllThresholdPassesEvery | engine/src/Core/Logger.cpp:22 | under the initial threshold, the char code of `All`, every level other than `All` and `Count` passes, provided `All` has the lowest char code |
| Logging.RaisingThresholdOnlyDrops | engine/src/Core/Logger.cpp:55-56 | a record that passes a threshold passes every lower threshold |
| Logging.AsChar | engine/src/Core/Logger.cpp:55 | the char cast yields a value in [-128, 128) congruent to its input modulo 256, and leaves values already in range unchanged |
| Logging.ShortenFunctionName | engine/src/Core/Logger.cpp:62-69 | the name the source computes step by step equals `ShortName` of the function name |
| Logging.LambdaTruncated | engine/src/Core/Logger.cpp:63-64 | the cut name is at most one character longer than the name |
| Logging.LambdaTruncatedByFind | engine/src/Core/Logger.cpp:63-64 | with no `lambda`, the name is kept; otherwise it is cut 6 characters past the index `find` returns, and `>` is appended |
| Logging.AfterLastColon | engine/src/Core/Logger.cpp:66-69 | the result has no `:`, is a suffix of its input, and is either the whole input or preceded by a `:` |
| Logging.AfterLastColonByFindLastOf | engine/src/Core/Logger.cpp:66-69 | with no `:`, the text is kept; otherwise the text after the index `find_last_of` returns is kept |
| Logging.ShortName | engine/src/Core/Logger.cpp:62-69 | the short name has no `:`, is a suffix of the lambda-cut name, and is at most one character longer than the name |
| Logging.ShortNameUnchanged | engine/src/Core/Logger.cpp:62-69 | a name with neither `lambda` nor `:` is kept unchanged |
| Logging.ShortNameOfLambda | engine/src/Core/Logger.cpp:63-69 | when the name holds `lambda`, the short name ends in `lambda>`, and it is a suffix of the name through its first `lambda` followed by `>` |
| Logging.ShortNameExample | engine/src/Core/Logger.cpp:62-69 | `main::<lambda_1>::operator ()` is shortened to `<lambda>` |
| Logging.ShortNameIdempotent | engine/src/Core/Logger.cpp:62-69 | shortening a short name changes nothing |
| Logging.LevelString | engine/src/Core/Logger.cpp:110-131 | the text is empty exactly for `All` and `Count`, and contains no `]` |
| Logging.LevelStringRoundTrip | engine/src/Core/Logger.cpp:110-131 | the five emitted levels have distinct texts, and each text reads back as its level |
| Logging.FormatLine | engine/src/Core/Logger.cpp:193-194 | the line starts with `[LEVEL]` and ends with `": "` and the message |
| Logging.LevelOfFormatLine | engine/src/Core/Logger.cpp:193-194 | the level of an emitted record is read back from between the leading `[` and the first `]` of its line |
| Logging.Logger.Print | engine/src/Core/Logger.cpp:192-198 | the line written is `FormatLine` of the entry, and it goes to the log file exactly when the file switch is on |
| Strings.Find | engine/src/Core/Logger.cpp:63 | `find` returns the first index where the pattern occurs, and `npos` exactly when it does not occur |
| Strings.FindFrom | engine/src/Core/Logger.cpp:63 | the first occurrence at or after a start index, or none |
| Strings.ThroughFirstSpec | engine/src/Core/Logger.cpp:64 | the prefix through the first occurrence of a pattern ends exactly at that occurrence, and is absent exactly when the pattern does not occur |
| Strings.FindLastOf | engine/src/Core/Logger.cpp:66 | `find_last_of` of one character returns an index holding it with none after, and `npos` exactly when it is absent |
| Strings.Decimal | engine/src/Core/Logger.cpp:193 | `std::to_string` of an unsigned line number is a non-empty string of digits without a leading zero |
| Strings.ParseDecimalInvertsDecimal | engine/src/Core/Logger.cpp:193 | the decimal text of a line number reads back as that number |
| Strings.DecimalInjective | engine/src/Core/Logger.cpp:193 | distinct line numbers print differently |
| Common.Max | engine/src/Core/Common.h:16-20 | the result is at least both inputs and is one of them |
| Common.Min | engine/src/Core/Common.h:22-26 | the result is at most both inputs and is one of them |
| Common.Clamp | engine/src/Core/Common.h:28-32 | with ordered bounds the result lies within them; a value inside is kept; a value below gives the lower bound, one above the upper; with reversed bounds the result is the lower bound |
| Common.ClampIdempotent | engine/src/Core/Common.h:28-32 | clamping twice equals clamping once |
| Common.ClampMonotone | engine/src/Core/Common.h:28-32 | clamping preserves order |
| Common.Lerp | engine/src/Core/Common.h:34-38 | weight 0 gives the first end point and weight 1 the second |
| Common.LerpStep | engine/src/Core/Common.h:34-38 | each unit step of the weight adds `max - min` |
| Common.OrderBounds | engine/src/Core/Common.h:43-44 | after the swap step the bounds are ordered; they are swapped exactly when `min >= max` |
| Common.PairHash | engine/src/Core/Common.h:75-78 | XOR-ing the pair hash with either component's hash recovers the other's |
| Common.PairHashSymmetric | engine/src/Core/Common.h:75-78 | with equal component types, swapping the components does not change the hash |
| Common.PairHashEqualIsZero | engine/src/Core/Common.h:75-78 | a pair of equal components hashes to zero |

## Left out

- The `Get()` singleton check (`Logger.cpp:52`): the model takes the logger instance as given. The singleton accessor is in `Logger.h`, which is not part of this model.
- The numeric values of `Logger::Level` (`Logger.h`): they are a parameter `code`, and `char` is taken to be signed.
- The enumerators of `Logger::Level` are assumed to have distinct values: the constructor requires `DistinctCodes(code)`. Under that assumption, comparing levels by constructor (`lvl == All || lvl == Count`, the match in `LevelString`) agrees with the source's comparison of values (`Logger.cpp:58`, the `switch` at `Logger.cpp:112`). Codes that coincide are not modelled.
- `fs::path(file).filename()`: the model's `LogInternal` takes the file name already stripped of its directories.
- Logging.Logger.LogInternal:
  - returns the entry rather than queueing it (multi-threaded) or printing it at once (single-threaded);
  - the queue, its mutex, the `Update` thread loop and the `request_stop` after a `Fatal` record are concurrency and are left out.
- Logging.Logger.Print: returns the line and the file switch instead of calling `puts` and `LogToFile`. Console and file I/O are left out.
- The log path and the UTC timestamp prefix of `LogToFile` and `VerifyLogPath`: these are file-system and clock operations.
- The Windows build: the console window setup, the `dye` colour variants of `GetLevelString` and `Print`.
- Common.Lerp: modelled on unbounded integers; the wrap-around or floating-point rounding of a fixed-width `T` is not modelled.
- Common.Max, Common.Min and Common.Clamp: modelled at one integer type. Conversions between mixed argument types `T`, `U`, `R` are not modelled.
- `PI`, `Radians`, `Degrees`, `Rand` and `Rand11`: floating point.
- The random draw of `RandomRange`: randomness. Only its bound-ordering step is modelled.
- `variant_visitor`: a C++ overload-set helper with no behaviour of its own.
