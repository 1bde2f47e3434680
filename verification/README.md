# TWIC downloader: archive naming scheme

The downloader fetches the weekly "The Week in Chess" (TWIC) archives. For an
issue id it builds an archive file name and a download URL. After the download
it works out the name of the PGN file to extract from that archive. This
project models those three names and proves how they relate:

- `twic{id:03d}g.zip`: the archive name. It is `"twic"`, then the id in decimal,
  zero-padded on the left to at least three digits, then `"g.zip"`.
- `BASE_URL + archive name`: the download URL, with
  `BASE_URL = "https://www.theweekinchess.com/zips/"`.
- `archive_name.split('g')[0] + ".pgn"`: the inner PGN file name.

The model has three modules:

- `Decimal` (`decimal.dfy`) renders a non-negative integer as Python's `d` and
  `03d` formats do. It also has a decimal parser. The parser is the inverse
  that the round-trip and injectivity lemmas are stated against.
- `PyStr` (`pystr.dfy`) models Python's `str.split(sep)` for a one-character
  separator. Beside it is `sep.join` on the non-empty lists that `split`
  returns, used as `Split`'s inverse. `Split` is proved to be the one way of
  cutting a string into separator-free pieces that join back to it.
- `TwicNaming` (`naming.dfy`) models the naming expressions of `main.py`, plus
  an independent definition of "the prefix before the first `g`". It also has
  a parser for archive names, used as the inverse of `ArchiveName`.

Ids are modelled as `nat`. Python would render a negative id with a minus sign
(`-5` becomes `-05`). Ids are TWIC issue numbers, and no caller in main.py
passes a negative one (main.py contains no call to `request_new_file` at all).

Python's `03d` pads to at least three digits, so an id of 1000 or more keeps
every digit (`Pad3`, `Pad3Of1234`). CPython's limit on the number of digits it
converts is not modelled (see "## Left out").

The inner name is derived by splitting on `g`, as main.py:19 does.
`InnerNameOfArchive` proves that for every generated archive name this gives
`"twic" + Pad3(id) + ".pgn"`.

## Model

| member | source | states |
|---|---|---|
| `Decimal.NatToDecimal` | main.py:25 | The decimal form of `n` is a non-empty digit string. It starts with `'0'` exactly when `n` is 0 (no leading zeros), and it parses back to `n`. |
| `Decimal.ParseDecimal` | main.py:25 | The value of a digit string of length k is below 10^k. It is at least 10^(k-1) when the first digit is not `'0'`. This is the inverse the round trips are stated against. |
| `Decimal.PadLeftZeros` | main.py:25 | Left zero-padding to a width: the length is the larger of the width and the input length. The input is kept whole at the end and only `'0'` stands before it. |
| `Decimal.Pad3` | main.py:25 | `{id:03d}` has only digits. It is exactly 3 characters when id < 1000. It is the plain decimal form, longer than 3, when id >= 1000. It parses back to id. |
| `Decimal.ParseLeadingZeros` | main.py:25 | Putting any number of leading zeros before a digit string does not change its value. |
| `Decimal.DecimalLength` | main.py:25 | For every k ≥ 1, the decimal form of n has at most k digits exactly when n < 10^k. |
| `Decimal.DigitsUnique` | main.py:25 | Two digit strings of equal length with equal value are the same string. |
| `Decimal.DecimalOfParse` | main.py:25 | A digit string with no superfluous leading zero is the decimal form of its own value. |
| `Decimal.Pad3Injective` | main.py:25 | Distinct ids give distinct padded fields. |
| `Decimal.Pad3Of5` | main.py:25 | Id 5 is rendered as `005`. |
| `Decimal.DecimalOf920` | main.py:25 | The decimal form of 920 is `920`. |
| `Decimal.Pad3Of920` | main.py:25 | Id 920 is rendered as `920`. |
| `Decimal.Pad3Of1234` | main.py:25 | Id 1234 is rendered as `1234`, not cut to three digits. |
| `PyStr.Split` | main.py:19 | `s.split(sep)` gives at least one piece. No piece contains `sep`, and joining the pieces with `sep` gives `s` back. |
| `PyStr.SplitUnique` | main.py:19 | Any list of separator-free pieces that joins back to `s` is exactly `s.split(sep)`. So `Split` is fully determined by its contract. |
| `TwicNaming.ArchiveName` | main.py:25 | The archive name starts with `twic` and ends with `g.zip`. Between them is a digit field of at least 3 characters whose value is the id. The name is 12 characters exactly when id < 1000. |
| `TwicNaming.Url` | main.py:26 | The URL starts with `BASE_URL` (main.py:12). The rest is the archive name, so the URL ends with `.zip`. |
| `TwicNaming.ParseArchiveName` | main.py:25 | Reads an archive name back into its id. It only accepts names of the form `twic<digits>g.zip` that are at least 12 characters long, and the id it returns is the value of the digit field. |
| `TwicNaming.SplitBeforeFirstG` | main.py:19 | The result is a prefix of the input and contains no `g`. When it is shorter than the input, the next character is `g`. So it is the whole input when the input has no `g`. |
| `TwicNaming.InnerName` | main.py:19 | `name.split('g')[0] + ".pgn"` is the prefix before the first `g`, then `.pgn`. When the name has no `g`, it is the whole name then `.pgn`. |
| `TwicNaming.SplitFirstPiece` | main.py:19 | The first piece of Python's `split('g')` is the prefix before the first `g`. |
| `TwicNaming.BeforeFirstGOf` | main.py:19 | When `a` has no `g`, the prefix of `a + "g" + b` before the first `g` is `a`. |
| `TwicNaming.InnerNameOfArchive` | main.py:33 | Extracting from the archive of id asks for `"twic" + pad3(id) + ".pgn"`. This holds because neither `twic` nor a digit is a `g`. |
| `TwicNaming.InnerNameShorter` | main.py:33 | The inner name is one character shorter than the archive name. Its stem is the archive name without `g.zip`, which is a prefix of the archive name. |
| `TwicNaming.ArchiveNameRoundTrip` | main.py:25 | Reading the archive name of id back gives id. |
| `TwicNaming.ParseArchiveNameSound` | main.py:25 | Every name that reads back as an id is exactly that id's archive name. Together with the round trip, the naming is a bijection between ids and the names `ParseArchiveName` accepts. |
| `TwicNaming.ArchiveNameInjective` | main.py:25 | Distinct ids give distinct archive file names. |
| `TwicNaming.UrlInjective` | main.py:26 | Distinct ids give distinct download URLs. |
| `TwicNaming.InnerNameInjective` | main.py:33 | Distinct ids give distinct extracted PGN file names. |

## Left out

- The HTTP request (main.py:27-28): `requests.get` with the User-Agent header, and `raise_for_status`. This is network client behaviour. The `session` parameter is never used, because the request goes through `requests.get` directly. The `HTTPError` handler at main.py:35 can never see the error from main.py:28, because that call sits outside the `try`.
- The timeout, redirect and transport error handlers (main.py:35-42). They only log.
- Writing the downloaded bytes and removing the archive (main.py:31-34). This is file-system I/O.
- ZIP extraction (main.py:20-21). This is a library call. Only the name passed to `extract` is modelled (`InnerName`).
- main.py:43 is not valid Python: its `break` is indented under no block and sits outside any loop. The `else:` at main.py:44 belongs to the `try` at main.py:29. Lines 44-52 only log, and they use the undefined names `cleanup`, `start_time` and `lg`. main.py:56 calls an undefined `main`. No batch loop, range planner or cleanup sweep exists in the code to model.
- The `asyncio` and `ThreadPoolExecutor` imports (main.py:1, main.py:6) are unused in the code. Concurrency is out of scope.
- Logging, progress display and timing (`loguru`, `tqdm`, `timedelta`). These are observability only.
- Negative ids. Python would render them with a minus sign. The model's ids are natural numbers.
- Concrete whole-name examples such as `twic920g.zip` and `twic920.pgn` for id 920 are not stated as lemmas of their own. Concrete values are stated only for the padded field (`Pad3Of5`, `Pad3Of920`, `Pad3Of1234`). The whole names follow from them by `ArchiveName`, `Url` and `InnerNameOfArchive`.
- Decimal.Pad3: CPython refuses to format an int of more than 4300 decimal digits. It raises `ValueError`, and the limit can be changed with `sys.set_int_max_str_digits`. The model renders every nat, so `Pad3`, `NatToDecimal`, `ArchiveName` and `Url` have no error path for such ids.
- PyStr.Join: defined only on non-empty lists, so Python's `sep.join([])` (the empty string) is not modelled. `Join` serves only as the inverse of `Split`, which never returns an empty list, and main.py does not call `join`.
