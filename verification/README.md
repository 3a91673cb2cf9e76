# qPPE settings dialog: duration codec and change mask

This project models the two pieces of self-contained logic in qPPE's PyQt5
dialog layer and proves properties of them in Dafny.

- **The `TimeSpinBox` duration codec** (`qppe/widgets.py`). `textFromValue`
  shows a number of seconds as `Nd Nh Nm Ns` text. `valueFromText` reads such
  text back: for every unit it takes the leftmost `(\d+)\s*<letter>` match and
  adds its number times the unit.
- **The `SettingsDlg` change mask** (`qppe/dialogs.py`). This covers the
  `str_bool` reading of stored flags, the six bit flags, and the starting state
  `__init__` reads. It also covers `accept`: it compares each widget with its
  store, writes the widgets that differ and ORs their bits into `changes`.

Files:

- `decimal.dfy` (module `Decimal`): `str(n)` and `int(s)` on ASCII digits.
- `pattern.dfy` (module `Pattern`): the pattern `(\d+)\s*X` and `re.search`'s
  leftmost-match rule.
- `time_spin_box.dfy` (module `TimeSpinBox`): the suffix table, the encoder,
  the decoder and the round trip.
- `settings_dlg.dfy` (module `SettingsDlg`): stored values, `str_bool`, flags,
  opening the dialog and `accept`.

Modelling choices:

- Both stores are `map<string, Stored>`. The shelve holds the two intervals;
  the "Settings Dialog" group holds the four flags. A missing key is a key
  absent from the map, and `QSettings.value` of a missing key is `None`.
  `Stored` is `None`, a bool, an int or a str.
- `accept` is a pure function from (shelve, settings group, widgets) to
  (mask, shelve', settings group'). It checks the six settings in the source's
  order through one `Step` per setting.
- The comparison `self.interval.value() != data['interval']` is Python's
  int/value equality. A stored bool compares as 0 or 1, and a stored str or
  `None` never equals the number (`IntEquals`).
- The mask is a `bv8`. Python's int is unbounded, but only the low six bits
  are ever set, which the contract of `Accept` states.
- `re.search` is modelled by trying a match at the start of the text and
  otherwise dropping the first character. `SearchIsLeftmost` proves this is
  the leftmost match. `MatchAtIsTheOnlySplit` proves that greedy matching
  without backtracking finds the only possible match for a unit letter. For a
  letter that is a digit or whitespace, `re` could backtrack and find a match
  greedy matching misses; the codec only ever searches for `s`, `m`, `h` and
  `d`, so the model does not cover such letters.
- Behaviours of the code worth noting:
  - `textFromValue(0)` is the empty string, not `"0s"`, because no suffix
    branch fires.
  - On opening, only a missing `view_accounts` gets a default written
    (`True`). Missing `handle_ppe`, `send_emails` and `continue_running` are
    left unwritten and their boxes start unticked.
  - The decoder allows whitespace between the digits and the letter.
  - `accept` compares each widget with the store as it is at accept time,
    re-reading it; it does not use a baseline captured at opening.
- Kept as written: when the shelve has no `interval`, the lookup fails before
  `autotry` is read. The autotry box then starts at 900 even if an autotry is
  stored. Accepting without edits overwrites that stored autotry with 900
  (`UneditedDialogChanges`).

## Model

| member | source | states |
|---|---|---|
| `Decimal.NatToString` | qppe/widgets.py:27 | A count is written as a non-empty run of ASCII digits that starts with `0` only for zero itself. |
| `Decimal.DigitsValue` | qppe/widgets.py:40 | `int` of a run of digits is 0 exactly when every digit is `0`. |
| `Decimal.DigitsValueOfNatToString` | qppe/widgets.py:40 | `int` of the digits `str` wrote gives back the count. |
| `Pattern.MatchAtIsTheOnlySplit` | qppe/widgets.py:38 | The anchored match `MatchAt`: at a given start, `(\d+)\s*X` matches exactly when some digits/whitespace/letter split exists, and every split captures the whole digit run. |
| `Pattern.SearchIsLeftmost` | qppe/widgets.py:38 | `Search`, the model of `re.search`, fails exactly when no position matches; otherwise it returns the match at a position with no match before it. |
| `Pattern.LeftmostMatchCapturesWholeRun` | qppe/widgets.py:38-40 | The leftmost match starts at the text's start or right after a non-digit, so its group is a whole maximal run of digits. |
| `TimeSpinBox.SortedSuffixesIsSortedTable` | qppe/widgets.py:25 | Sorting the suffix table by letter lists the same suffixes from the longest unit to the shortest, each a whole multiple of the next. |
| `TimeSpinBox.TextFromValue` | qppe/widgets.py:21-31 | The text the loop writes is the days/hours-of-day/minutes-of-hour/seconds-of-minute breakdown, from the longest unit that fits down to seconds, joined by single spaces. |
| `TimeSpinBox.CanonicalShape` | qppe/widgets.py:25-30 | The rendering is empty exactly for 0. Otherwise it runs in `d,h,m,s` order from the longest unit that fits and ends with `s`. The first count is at least 1 and equals the number of whole such units; every later count is below the ratio to the previous unit. |
| `TimeSpinBox.CanonicalWithinRange` | qppe/widgets.py:14 | Within the spin box's maximum (one second under seven days) the day count is at most 6 and every other count is below 60. |
| `TimeSpinBox.TextFromValueZero` | qppe/widgets.py:23-31 | Zero is shown as the empty string. |
| `TimeSpinBox.TextFromValueOneDay` | qppe/widgets.py:26-30 | 86400 is shown as `1d 0h 0m 0s`: after the first token, zero units are written explicitly. |
| `TimeSpinBox.TextFromValueUnderMinute` | qppe/widgets.py:26-29 | 59 is shown as `59s`, with no leading zero tokens. |
| `TimeSpinBox.TextFromValueHourMinuteSecond` | qppe/widgets.py:26-30 | 3661 is shown as `1h 1m 1s`. |
| `TimeSpinBox.ValueFromText` | qppe/widgets.py:33-41 | The value read is, for each of `d`, `h`, `m` and `s`, the number the leftmost `(\d+)\s*X` match captures (0 when none matches) times that unit's seconds. |
| `TimeSpinBox.SearchJoinedTokens` | qppe/widgets.py:37-40 | Searching space-joined tokens for a unit letter finds the count of the first token with that letter, and nothing when there is none. |
| `TimeSpinBox.ValueOfJoinedTokens` | qppe/widgets.py:33-41 | The value of joined tokens is the sum, over the four units, of the first matching token's count times the unit. Units with no token add 0. |
| `TimeSpinBox.ValueWithoutTokens` | qppe/widgets.py:35-41 | Text in which no unit's pattern matches anywhere reads as 0. |
| `TimeSpinBox.SwappingTokensKeepsValue` | qppe/widgets.py:37-40 | Swapping two neighbouring tokens of different units does not change the value read. |
| `TimeSpinBox.RepeatedUnitIsIgnored` | qppe/widgets.py:38-40 | Appending a token for a unit already present does not change the value: repeated units do not add up. |
| `TimeSpinBox.RoundTrip` | qppe/widgets.py:21-41 | Reading back the text shown for any non-negative number of seconds gives that number. |
| `TimeSpinBox.ValueFromTextAnyOrder` | qppe/widgets.py:37-40 | `2h 1d` reads as 93600 seconds. |
| `TimeSpinBox.ValueFromTextFirstWins` | qppe/widgets.py:38-40 | `1h 2h` reads as 3600 seconds, not 7200. |
| `TimeSpinBox.ValueFromTextCaseSensitive` | qppe/widgets.py:38 | `1H` reads as 0 because suffix letters are case-sensitive. |
| `SettingsDlg.StrBool` | qppe/dialogs.py:26 | A stored flag reads as off exactly when it is `None`, `False`, `0`, `""` or the exact string `"false"`. |
| `SettingsDlg.StrBoolExamples` | qppe/dialogs.py:26 | `"False"`, `"0"`, `"true"`, `1` and `True` read as on; `"false"` reads as off. |
| `SettingsDlg.Flag` | qppe/dialogs.py:18-23 | Each setting's bit is a non-zero power of two within the low six bits. |
| `SettingsDlg.FlagsAndKeysAreDistinct` | qppe/dialogs.py:18-23 | Different settings have disjoint bits and different keys, so each bit names exactly one setting. |
| `SettingsDlg.InitialIntervals` | qppe/dialogs.py:36-41 | The interval spin box starts from the stored `interval`, or 900 when it is missing. The autotry spin box starts from the stored `autotry` only when both keys are stored, and from 900 otherwise. |
| `SettingsDlg.Open` | qppe/dialogs.py:35-94 | Opening reads `interval` from the shelve, or 900 when it is missing. It reads `autotry` only when both `interval` and `autotry` are stored, else 900. Afterwards every checkbox equals `str_bool` of its stored flag. Only a missing `view_accounts` is written; it is written as `True` and its box starts ticked. Every other key is left as it was. |
| `SettingsDlg.IntEquals` | qppe/dialogs.py:121-124 | A spin box's number equals a stored value exactly when that value is the same int, or is `False` for 0 or `True` for 1. |
| `SettingsDlg.Step` | qppe/dialogs.py:121-140 | One check: the setting's bit ends up set iff it was set already or the widget disagreed with the store. A disagreeing widget's value is written under its key; otherwise the entry is left as it was. |
| `SettingsDlg.Accept` | qppe/dialogs.py:116-141 | A setting's bit is set iff its widget differs from the store. A spin box differs when its key is missing or the stored value is not equal to it; a checkbox differs when it is not `str_bool` of its flag, a missing flag counting as off. No bit above the sixth is set. |
| `SettingsDlg.AcceptWritesExactlyTheChanges` | qppe/dialogs.py:121-140 | A changed setting's store holds its widget's value afterwards. An unchanged setting's entry, and every key the dialog does not own, is left as it was. |
| `SettingsDlg.AcceptLeavesNothingChanged` | qppe/dialogs.py:121-140 | After `accept`, every widget agrees with its store. |
| `SettingsDlg.AcceptIsIdempotent` | qppe/dialogs.py:116-141 | Accepting again with the same widgets gives mask 0 and writes nothing. |
| `SettingsDlg.Reloaded` | qppe/dialogs.py:65-66 | Reloading the settings, where a written flag comes back as `"true"` or `"false"`, keeps the same keys and every flag's `str_bool` reading. |
| `SettingsDlg.AcceptAfterReloadReportsNothing` | qppe/dialogs.py:129-140 | Accepting again after the written flags have come back as strings still gives mask 0. |
| `SettingsDlg.AcceptReportsTheOnlyChange` | qppe/dialogs.py:116-141 | When exactly one widget disagrees with its store, the mask `accept` returns is exactly that setting's bit. |
| `SettingsDlg.EmailOnlyChange` | qppe/dialogs.py:132-134 | With every other widget matching its store, ticking "send emails" over a stored `"false"` gives exactly the email bit. |
| `SettingsDlg.UneditedDialogChanges` | qppe/dialogs.py:36-140 | Opening and accepting without edits sets no checkbox bit. The interval bit is set iff the shelve lacked `interval`. The autotry bit is set iff the shelve lacked `autotry`, or lacked `interval` and held an autotry other than 900. |

## Left out

- The `QRegExpValidator` live-input filter (`qppe/widgets.py:13`, `17-19`). It is Qt library behaviour.
- Qt's spin-box clamping (`setMaximum`, `setValue`). `ValueFromText` returns the raw sum, which can exceed the maximum (`7d`). The shelve's stored intervals are handed over as stored values, without modelling how `setValue` converts them.
- Unicode `\d` and `\s`. The model uses the ASCII digits and the six ASCII whitespace characters.
- How `setCheckState(bool)` and `setTristate` map to a checked state. Checkbox states are plain booleans.
- The enabled/disabled cascade wired through `stateChanged` (`qppe/dialogs.py:83`, `88`, `91`, `96`). It is signal plumbing.
- Opening, syncing and closing the shelve and `QSettings`, including `endGroup`. These are file I/O; the stores are in-memory maps.
- `QDialog.accept`/`reject`, window layout and labels. These are Qt; cancelling performs no store writes and is not modelled.
- `AccountDlg`, `AddDlg`, `EditDlg` and `SelectDlg` (`qppe/dialogs.py:146-291`). They call the external account checker and logger, which are not part of this model.
- The unused `CUTOFFS` constant (`qppe/dialogs.py:17`).
- `setup.py`: packaging and a shell copy command.
- SettingsDlg.Accept: the mask is an 8-bit vector rather than an unbounded Python int. No bit above the sixth can be set, so nothing is lost.
- SettingsDlg.Reloaded: covers only flags written as booleans. This dialog stores no other kind of value in the settings group.
