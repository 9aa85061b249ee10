# subgetter identity core, in Dafny

This project models the non-I/O core of subgetter, a tool that identifies
movie files and fetches subtitles for them:

- `misc.py`: the dice-coefficient string similarity. It optionally
  lower-cases both strings, pads a one-character string with `'.'`, builds
  the lists of overlapping bigrams (two-character substrings), collapses
  them into sets, and returns `2·|A∩B| / (|A|+|B|)`. The result is 0 when
  either string is empty.
- `subgetter.py`: the `Movie` identity record and its `update_info`, and
  `MovieFile`:
  - its initial state and its `extension`;
  - the OpenSubtitles content hash: the file size plus the first and last
    64 KiB read as little-endian signed 64-bit words, summed modulo 2^64 and
    printed with `%016x`, or `"SizeError"` for files under 128 KiB;
  - `find_season_episode`, which reads season and episode numbers from the
    file's base name with the regex `[sS]?(\d{1,2})[-xXeE](\d{1,2})`.

Modules:

- `Wrappers` (wrappers.dfy): `Option`.
- `Misc` (misc.dfy): the dice coefficient.
  - `Dice` is the specification function. The result is an exact real, not
    a float.
  - The method `DiceCoefficient` follows the source's loops and is proved
    equal to `Dice`.
- `PyText` (pytext.dfy): the Python built-ins the classes rely on:
  - `int()` on text (`ParseInt`), and the constructor's
    `try: int(v) except ValueError: 0` (`IntOrZero`);
  - `str.split(sep)` and `[-1]` (`Split`, `LastPart`), which give the
    extension and, with `'/'`, `os.path.basename`;
  - substring `in` (`Contains`).
- `OsHash` (oshash.dfy): the hash arithmetic.
  - The method `AddWords` is one masking loop over 8192 words, with an
    accumulator invariant. The source writes this loop twice; `ComputeHash`
    calls it for the head of the file and then for the tail, starting from
    the file size.
  - `HashValue` is the closed form of the sum; `Hex16` is the `%016x`
    formatting.
- `SeasonEpisode` (seasonepisode.dfy): `re.search` for the season/episode
  pattern, written as a scan.
  - Start positions are tried left to right.
  - At each position, the alternatives are tried in the backtracking
    engine's order: `[sS]?` consumes before it skips, and each `\d{1,2}`
    takes two digits before one.
- `Subgetter` (subgetter.dfy): the classes `Movie` and `MovieFile`.
  - Python's subclassing is written as composition. A `MovieFile` keeps
    its inherited Movie fields in the object `movie`.
  - `MovieFile.UpdateInfo` delegates to `Movie.UpdateInfo`.

Behaviour of the code that the model keeps:

- The code is Python 2.
- `int("-5")` is stored as -5, so an IMDb id can be negative. `int()`
  skips whitespace after the sign as well, so `int("- 5")` is -5.
- `kind` is any string; a fresh `MovieFile` has kind `""`.
- `find_season_episode` requires a kind containing `"serie"` and zero
  season and episode. It then assigns `season` and `episode` in place and
  returns nothing.
- `\d` in the season/episode pattern matches the ASCII digits only, since
  the pattern is compiled without the UNICODE flag.

## Model

| member | source | states |
|---|---|---|
| `Misc.Lower` | misc.py:26-28 | lower-casing keeps the length and lower-cases each character on its own |
| `Misc.Bigrams` | misc.py:35-40 | a string of length n ≥ 2 has exactly n-1 bigrams, and entry i is `s[i:i+2]`; shorter strings have none |
| `Misc.PreparedHasBigrams` | misc.py:30-33 | after optional lower-casing and padding, a non-empty string has length ≥ 2, so its bigram set is non-empty and the denominator is never zero |
| `Misc.Dice` | misc.py:23-24 | the coefficient is 0 when either input is empty |
| `Misc.DiceCoefficient` | misc.py:10-47 | the procedure (early return, lower-casing, padding, the two bigram loops, set intersection, ratio) computes exactly `Dice` |
| `Misc.RatioBounds` | misc.py:45 | `overlap*2/(|A|+|B|)` lies in [0,1] when the overlap fits in both sets |
| `Misc.DiceBounds` | misc.py:42-45 | the coefficient lies in [0,1] for every pair of strings and either case setting |
| `Misc.DiceSymmetric` | misc.py:26-45 | swapping the two arguments does not change the coefficient |
| `Misc.DiceSelf` | misc.py:30-45 | a non-empty string scores exactly 1 against itself |
| `Misc.DiceIgnoresCase` | misc.py:26-28 | with case ignored, an input can be replaced by any string with the same lower-case form without changing the score |
| `Misc.DiceSwapCase` | misc.py:26-28 | with case ignored, flipping the case of the letters of either input leaves the score unchanged |
| `Misc.NightNacht` | misc.py:35-45 | "night" against "nacht" scores 0.25: one shared bigram out of 4 + 4 |
| `PyText.DigitsValueBound` | subgetter.py:126-127 | a run of n decimal digits has a value below 10^n |
| `PyText.ParseIntDecimal` | subgetter.py:16 | `int(str(n)) == n` for every integer n: the decimal text of an integer parses back to it |
| `PyText.IntOrZeroDecimal` | subgetter.py:15-18 | the constructor stores the same number whether it is given the integer n or its decimal text `str(n)` |
| `PyText.SpaceAfterSign` | subgetter.py:15-18 | a minus sign, then any whitespace, then digits parses to the negated digit value, as Python 2's `int()` does |
| `PyText.NoDigitNoInt` | subgetter.py:15-18 | text without any digit (the empty text included) is rejected by `int()`, so the constructor coerces it to 0 |
| `PyText.Split` | subgetter.py:53 | `split` gives at least one part, and no part contains the separator |
| `PyText.JoinSplit` | subgetter.py:53 | joining the parts of `s.split(sep)` with `sep` gives `s` back |
| `PyText.LastPartIsSuffix` | subgetter.py:53 | `path.split('.')[-1]` contains no '.', is a suffix of the path, and is either the whole path or preceded by a '.' |
| `PyText.LastPartWithoutSeparator` | subgetter.py:53 | without a '.', the extension is the whole path |
| `PyText.ContainsAt` | subgetter.py:116 | `needle in haystack` holds exactly when the needle occurs at some offset of the haystack |
| `Subgetter.Movie.constructor` | subgetter.py:13-27 | name and kind are stored as given; imdbid, season and episode are `int()` of their arguments, or 0 where `int()` raises ValueError |
| `Subgetter.Movie.UpdateInfo` | subgetter.py:38-43 | name, imdbid, kind, season and episode take the argument's values |
| `Subgetter.MovieFile.constructor` | subgetter.py:46-56 | a new MovieFile has name "", kind "", imdbid 0, season 0, episode 0, no subtitle file; its size is the content length, its hash is the content hash, its extension is the path's text after the last '.' |
| `Subgetter.MovieFile.UpdateInfo` | subgetter.py:38-43 | the five identity fields take the argument's values; path, hash, size, extension and subfile are unchanged, and the object invariant is kept |
| `Subgetter.MovieFile.FindSeasonEpisode` | subgetter.py:115-127 | requires a kind containing "serie" and zero season and episode. On a match of the leftmost search in the base name, season and episode take the matched numbers, each in 0..99. Without a match both stay 0. Name, kind and imdbid are unchanged |
| `OsHash.UnsignedWord` | subgetter.py:81-82 | eight bytes read least significant first give a value below 2^64 |
| `OsHash.SignedWord` | subgetter.py:82 | `struct.unpack('q')` yields a value in [-2^63, 2^63) that differs from the unsigned reading by 0 or 2^64 |
| `OsHash.ComputeHash` | subgetter.py:62-95 | "SizeError" exactly when the file is under 131072 bytes. Otherwise the result is exactly 16 lower-case hex digits: the `%016x` of (size + the 8192 words at offset 0 + the 8192 words at offset size-65536) mod 2^64 |
| `OsHash.AddWords` | subgetter.py:80-91 | one of the two loops: the accumulator ends in [0, 2^64), equal to (its start value + the 8192 signed words from the given offset) mod 2^64 |
| `OsHash.MaskStep` | subgetter.py:83-84 | one `hash += l_value; hash &= 0xFFFFFFFFFFFFFFFF` step keeps the accumulator in [0, 2^64) and congruent to the running sum |
| `OsHash.ModAddLeft` | subgetter.py:84 | masking an intermediate sum early does not change the final value modulo 2^64 |
| `OsHash.SignedSumCongruent` | subgetter.py:80-91 | summing words as signed values agrees modulo 2^64 with summing them as unsigned values |
| `OsHash.HashValueUnsigned` | subgetter.py:75-91 | the hash equals the reference definition over unsigned 64-bit words |
| `OsHash.HexDigits` | subgetter.py:94 | the rendering has exactly n characters, all lower-case hex digits |
| `OsHash.ParseHexDigits` | subgetter.py:94 | n hex digits represent every value below 16^n without loss |
| `OsHash.Hex16RoundTrip` | subgetter.py:94 | `%016x` of a 64-bit value is 16 lower-case hex digits that read back as the value |
| `OsHash.HexDigitsZeroPadded` | subgetter.py:94 | for a value below 16^k, every digit before the last k is '0' (zero padding) |
| `OsHash.Hex16NotSizeError` | subgetter.py:77-78 | no hex rendering equals the "SizeError" marker |
| `SeasonEpisode.MatchAtCorrect` | subgetter.py:122-124 | an attempt at one offset succeeds with a layout that fits the pattern and is the one the engine prefers among all layouts that fit; it fails only when no layout fits |
| `SeasonEpisode.SearchFrom` | subgetter.py:122-124 | the search returns the first offset, from p on, where an attempt succeeds; with no result, every attempt fails |
| `SeasonEpisode.SearchFoundFits` | subgetter.py:125-127 | a found match fits the pattern, and its season and episode numbers lie in 0..99 |
| `SeasonEpisode.SearchLeftmost` | subgetter.py:122-125 | the pattern fits at no offset before the match, and the match uses the preferred layout. Without a match, the pattern fits at no offset |
| `SeasonEpisode.ShowS02E05` | subgetter.py:122-127 | for the file name "Show.S02E05.mkv" the leftmost match starts at the 'S' with a one-letter prefix and two-digit groups, and gives season 2, episode 5 |
| `SeasonEpisode.Numbers` | subgetter.py:125-127 | a season and episode are produced exactly when the search finds a match, and both are at most 99 |
| `SeasonEpisode.NoDigitsNoMatch` | subgetter.py:122-125 | a base name without digits never matches, so season and episode stay 0 |

## Left out

- opensubtitles.py and tvsubtitles.py: the XML-RPC client, login tokens, request
  timing, subtitle decoding, HTML scraping and zip extraction are network and
  file plumbing.
- `MovieFile.__hash` file handling (`open`, `seek`, `read`,
  `os.path.getsize`). The model takes the file's bytes as a sequence, and
  the size is its length. `struct` format 'q' is read as little-endian, the
  native order on the usual hosts. Short reads are not modelled.
- `add_subtitle` writes a file. (It derives `base` from the path's suffix,
  `path[-len(extension):]`, not from its stem.)
- `main` handles the command line, the network and logging.
- `__str__` of both classes: display text only.
- `osdb_criteria` builds the request dictionary for the network client.
- `filename()` is modelled as `Subgetter.MovieFile.Filename`; it comes
  with no contract of its own.
- Floating point: the dice coefficient is an exact real.
- `Misc.Lower`: lower-cases ASCII letters only. That is what Python 2's
  `str.lower()` does on byte strings; `unicode.lower()` also maps other
  letters, one character to one, and the model does not.
- `Misc.Prepare`: strings are text throughout. Python 2 distinguishes byte
  strings from unicode, and padding a one-character non-ASCII byte string
  with `u'.'` raises UnicodeDecodeError; the model pads it like any other.
- `PyText.ParseInt`: covers ASCII whitespace, an optional sign and ASCII
  digits. Python 2 also converts Unicode decimal digits and whitespace in a
  `unicode` argument before parsing; this is not modelled.
- `PyText.IntOrZero`: does not cover `int()` of values other than ints and
  text. Floats are truncated there, and `None` raises TypeError, which the
  constructor does not catch. `str()` of a name or kind that is not a
  string is not modelled either.
- `Subgetter.Movie.constructor`: a Dafny string stands for a Python 2 byte
  string. `str(name)` and `str(kind)`, and `str(path)` in
  `Subgetter.MovieFile.constructor`, raise UnicodeEncodeError for a
  `unicode` argument holding a non-ASCII character. Nothing catches it, and
  the model does not have this error path: it stores every string as given.
- `PyText.Basename`: POSIX paths only (splits at '/').
- The three asserts of `find_season_episode` become preconditions. The
  AssertionError they raise, and their removal under `python -O`, are not
  modelled.
