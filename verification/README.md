# Fake USB tester — probe classification, run outcome and disk selection

This project is a Dafny model of the core of a desktop tool that checks USB
flash drives for counterfeit capacity. The tool lists the removable disks. It
runs `f3probe` on the selected disk under `pkexec`. It then reads the probe's
transcript and reports three things:

- the real capacity;
- the promised capacity;
- a status: probably genuine, fake warning, capacity mismatch or test completed.

It also reads the disk's vendor and model from `udevadm` property lines.

The modules follow the program's structure:

- `Classifier` — the transcript classifier `_parse_f3probe_output`. It is a
  left-to-right fold over the stripped stdout lines. The fold uses the same
  five-way `elif` chain, the same sector size (512) and the same GiB rounding
  as the source. A final step settles the status.
- `Runner` — what `F3Worker.run` emits once the probe has ended or could not
  be started. Exit codes 0 and 102 count as success. Any other exit code
  emits exactly one error, chosen from the joined stderr.
- `Udev` — the property-line loop of `_get_disk_vendor_product` and the
  brand/model text built from its two results.
- `Disks` — the removable-disk filter of `_load_disks`, the `"path (size)"`
  drive-list entries, and how `_on_disk_selected` and
  `_get_selected_disk_path` read a selected entry back.
- `Text`, `Numerals` and `Options` — helpers:
  - `Text` holds Python's `in`, `split`, `strip`, `startswith`, `lower` and
    `join` on `seq<char>`;
  - `Numerals` holds `int()` on digit strings, `float()` on plain decimals,
    `round(x, 2)` as exact half-to-even rounding, and the `repr` of a
    whole number of hundredths;
  - `Options` holds `Option` and `Result`.

Three behaviours of the code are easy to misread:

- Exit code 102 does not force the counterfeit verdict. The transcript alone
  decides the status. The worker then also emits a separate "fake device
  detected" notice (`Runner.Exit102KeepsVerdict`).
- A `pkexec` that is missing at launch raises `FileNotFoundError`. That
  reports "f3 not found", not "pkexec not found". "pkexec not found" is only
  reported from the stderr of a failed run.
- Capacities are not converted to bytes. When both capacities are a single
  "number unit" pair and both numbers parse, they match exactly when the
  numbers are equal and the unit texts are identical. In every other case the
  two texts are compared literally, so "abc GB" matches "abc GB"
  (`Classifier.UnitsNeverConverted`, `Classifier.CompareUnparsed`,
  `Classifier.CompareLiteral`).

## Model

| member | source | states |
|---|---|---|
| Classifier.Scan | fake_usb_tester.py:97-140 | After the loop, the fake flag is set exactly when some line takes the counterfeit or the shortfall branch. Without the flag, the tentative status is "probably genuine" exactly when some line takes the genuine branch, and "test completed" otherwise. Each capacity is the value assigned by the last line that assigns it, or undetected when no line does. The warning count is the number of shortfall lines whose counts fail to parse, counted independently of the fold. |
| Classifier.Classify | fake_usb_tester.py:97-161 | The reported status is the fake warning exactly when a counterfeit or shortfall line is present. Otherwise, with both capacities found, the status is their comparison. With a capacity missing, it is genuine when a genuine line was seen and "test completed" when none was. Each capacity is the last one assigned. The number of warnings is the number of shortfall lines whose counts fail to parse, so it is zero exactly when no such line exists. |
| Classifier.FakeDominates | fake_usb_tester.py:109-113 | One counterfeit or shortfall line anywhere makes the verdict the fake warning, whatever lines come before or after it. |
| Classifier.GenuinePriority | fake_usb_tester.py:107-111 | A line holding both the genuine and the counterfeit phrases counts as genuine, so it alone never makes the device fake. |
| Classifier.GenuineWithoutSizes | fake_usb_tester.py:107-108 | A genuine line with no counterfeit line and no capacity lines gives "probably genuine", with the real capacity undetected. |
| Classifier.NoFakeNoWarning | fake_usb_tester.py:143-159 | Without counterfeit or shortfall lines the verdict is never the fake warning. |
| Classifier.EmptyTranscript | fake_usb_tester.py:99-104 | An empty transcript reports both capacities undetected, "test completed" and no warning. |
| Classifier.ShortfallParse | fake_usb_tester.py:115-117 | In a shortfall line as f3probe prints it, the two counts (digits with optional comma grouping) are read back as the found and the declared sector counts. |
| Classifier.ShortfallScenario | fake_usb_tester.py:112-125 | A transcript holding just the shortfall warning reports the device fake. Both capacities are computed from the sector counts as rounded GiB followed by " GB", and no warning is emitted. |
| Classifier.ShortfallWithoutOf | fake_usb_tester.py:115-117 | For the line "sectors were found, WARNING: Only <count>", where no " of " follows "Only ", the declared count defaults to 0, the found count is read, and the line still takes the shortfall branch. |
| Classifier.ShortfallParseFailureKeeps | fake_usb_tester.py:126-127 | A shortfall line whose counts do not parse adds exactly one warning, makes the verdict fake, and leaves both capacities as they were. |
| Classifier.CentiGiB | fake_usb_tester.py:119-122 | The capacity in hundredths of a GiB is within half a hundredth of sectors × 512 / 2^30. |
| Classifier.ShortfallExample | fake_usb_tester.py:119-125 | 15261216 sectors print as "7.28 GB" and 61069312 sectors as "29.12 GB". |
| Classifier.SizeField | fake_usb_tester.py:131 | The extracted size holds no ':' and no '(' and has no surrounding white space. |
| Classifier.SizeFieldOf | fake_usb_tester.py:129-140 | For a line "name: value (note)", the extracted size is exactly the value. |
| Classifier.SizesScenario | fake_usb_tester.py:129-159 | A usable-size line followed by an announced-size line reports both values, and the status is their comparison. |
| Classifier.MatchingSizes | fake_usb_tester.py:145-154 | Equal usable and announced sizes make the device probably genuine. |
| Classifier.Compare | fake_usb_tester.py:145-159 | The comparison only ever yields "probably genuine" or "capacity mismatch". Which one is stated by CompareMeasured, CompareUnparsed and CompareLiteral. |
| Classifier.CompareMeasured | fake_usb_tester.py:147-154 | Two "number unit" capacities with parsable numbers match exactly when the numbers are equal and the units are the same text. |
| Classifier.CompareUnparsed | fake_usb_tester.py:148-159 | Two "number unit" capacities where either number does not parse as a float are compared as text: they match exactly when the texts are identical. |
| Classifier.UnitsNeverConverted | fake_usb_tester.py:151-152 | Capacities in different unit texts never match, whatever their numbers. |
| Classifier.CompareLiteral | fake_usb_tester.py:155-159 | A capacity that is not a single "number unit" pair is compared as text. |
| Classifier.CompareSymmetric | fake_usb_tester.py:145-159 | Swapping the real and the promised capacity does not change the comparison. |
| Numerals.RoundHalfEven | fake_usb_tester.py:121-122 | The result is the nearest integer to n/d, and an exact tie goes to the even neighbour. |
| Numerals.HundredthsRoundTrip | fake_usb_tester.py:124-125 | The printed capacity number parses back as a float to the same number of hundredths. |
| Numerals.ParseNatToString | fake_usb_tester.py:116-117 | Printing a count and reading it back with `int()` gives the count. |
| Runner.ErrorOutput | fake_usb_tester.py:82 | The error detail is the "no output" text exactly when stderr held no line. A single line is kept as it is. For several lines, FailureByLines states what the joined text gives. |
| Runner.FailureOf | fake_usb_tester.py:83-88 | Given the error detail, a failed run reports an authentication error exactly when the lower-cased detail mentions polkit or authentication. It reports a missing pkexec exactly when it does not, but mentions both "not found" and "pkexec". Otherwise it reports a generic error carrying the exit code and the detail. The "no output" text always gives the generic error. |
| Runner.FailureByLines | fake_usb_tester.py:82-88 | For a failed run with stderr lines, the authentication error is reported exactly when some line mentions polkit or authentication, in any letter case. A missing pkexec is reported exactly when there is no such line, some line mentions "not found" and some line mentions "pkexec". Otherwise the generic error is reported. None of the phrases spans the newline that joins the lines. |
| Runner.Outcome | fake_usb_tester.py:76-92 | A launch failure emits only "f3 not found". An exit code other than 0 or 102 emits only the stderr-derived error. Exit codes 0 and 102 emit the success notice, then the classifier's warnings and its result. Exit code 102 adds a final fake-device notice. |
| Runner.ProbeEvents | fake_usb_tester.py:126-161 | For a classification with n warnings, the parser emits n capacity-parse errors, then exactly one result that carries both capacities and the status. |
| Runner.ParseWarnings | fake_usb_tester.py:114-161 | For a transcript, the parser emits one capacity-parse error per shortfall line whose counts fail to parse, then exactly one result. |
| Runner.Exit102ExtendsExit0 | fake_usb_tester.py:76-80 | Exit code 102 emits what exit code 0 emits, whatever either stderr held, followed by the fake-device notice. |
| Runner.Exit102KeepsVerdict | fake_usb_tester.py:76-80 | With exit code 102 and nothing on stdout, the result still says "test completed". |
| Runner.CaseInsensitive | fake_usb_tester.py:83-85 | The kind of failure reported does not depend on the letter case of stderr. |
| Runner.StripAll | fake_usb_tester.py:64-65 | Each collected line is the read line with its surrounding white space removed. |
| Udev.Parse | fake_usb_tester.py:670-684 | Each of vendor and model is the value of the last database line for that field. Without a database line it is the value of the first plain or escaped line. With neither, it is unset. |
| Udev.Value | fake_usb_tester.py:672 | A property value has no surrounding white space and holds no '='. |
| Udev.ValueOf | fake_usb_tester.py:672 | The value of "KEY=rest" is the text of rest up to any further '=', trimmed. |
| Udev.StepFields | fake_usb_tester.py:671-684 | The `elif` chain updates vendor and model independently: a database line always sets its field, and a fallback line sets it only while it is unset. |
| Udev.DatabaseWins | fake_usb_tester.py:671-676 | A database vendor line decides the vendor whether it comes before or after a plain vendor line. |
| Udev.FirstFallbackKept | fake_usb_tester.py:675-681 | Of two fallback vendor lines, the first one is kept. |
| Udev.BrandModel | fake_usb_tester.py:686-703 | The brand/model text is vendor and model joined by one space, or whichever of them is non-empty, or nothing when both are missing or empty. |
| Disks.RemovableDisks | fake_usb_tester.py:570-582 | Every listed disk comes from an input record that passes the filter, with path "/dev/" + name and the rendered size. |
| Disks.ListedExactly | fake_usb_tester.py:570-582 | Every record that passes the filter appears among the listed disks. |
| Disks.RemovableDisksAppend | fake_usb_tester.py:570-582 | The filter keeps input order: filtering a concatenation concatenates the filtered parts. |
| Disks.ComboItems | fake_usb_tester.py:584-588 | The drive list holds exactly the placeholder when no disk is listed, and otherwise one "path (size)" entry per disk, in order. |
| Disks.SelectedPath | fake_usb_tester.py:718-731 | An empty or placeholder selection gives "no selection". Otherwise the first space-separated token is returned exactly when the selection starts with "/dev/", and it is reported invalid when it does not. |
| Disks.SelectionInfo | fake_usb_tester.py:625-638 | An empty or placeholder selection gives nothing. Otherwise the path is the first token, and the size is the text after the last '(' with ')' removed and trimmed. |
| Disks.SelectionRoundTrip | fake_usb_tester.py:632-638 | Reading back a "path (size)" entry gives its path and its size text. |
| Disks.SelectListed | fake_usb_tester.py:725-731 | Selecting the entry of a listed disk gives back its device path. |

## Left out

- Process launch, the streaming reads, Qt signals and the GUI are not modelled. The `progress` echo of each stdout line is left out, and so is the `error` echo of each stderr line (lines 64-72). Only the signals emitted after the process ends are modelled.
- The generic `Exception` branch of `F3Worker.run` (lines 93-95) is left out. Within the modelled code, the only way to reach it is the float overflow described under Classifier.CentiGiB.
- The brand/model placeholder that `f3probe_result` carries is left out. It is always the "not detected" text.
- Runner.Outcome: the untranslated message texts are represented by datatype constructors, not by the translated strings.
- Classifier.Classify: undetected capacities are represented by `None`, not by the translated "not detected" text. A size line whose value is literally that text is therefore not confused with an undetected capacity, as it would be in the source.
- Numerals.ParseDecimal: `float()` is modelled only for plain decimals made of ASCII digits with at most one point. Signs, exponents, underscores, non-ASCII digits, "inf" and "nan" are left out, so a NaN never arises.
- Classifier.Compare: numbers are compared by exact decimal equality, not by the equality of IEEE doubles. Two decimals that round to the same double, such as "0.1" and "0.10000000000000000001", match in the source but not in the model.
- Classifier.CompareMeasured: states exact decimal equality of the numbers, for the same reason as Classifier.Compare.
- Classifier.SectorCount: `int()` is modelled for ASCII digits only. Signs, underscores and other Unicode digits are left out. From Python 3.11 on, `int()` also refuses a digit string longer than 4300 digits with a ValueError. The source then emits a capacity-parse warning and keeps both capacities, while the model reads the count.
- Classifier.CapacityText: Python prints very large floats (1e16 and above) with an exponent. That form is not modelled, since no real drive comes near it.
- Classifier.CentiGiB: rounds the exact quotient sectors × 512 / 2^30. In the source that quotient is a float. Above 2^53 sectors it is no longer exact before `round`, so the rounded hundredths can differ from the model's. Above about 3.8e314 sectors the division raises OverflowError. The `except (ValueError, IndexError)` at line 126 does not catch that error, so it reaches the generic handler at lines 93-95. The run then emits the success notice and the unexpected-error message, and no result. The model instead reports a capacity for such counts. No real drive comes near either size.
- Text.Lower: lower-casing is modelled for ASCII letters only.
- Concrete comparisons such as "7.45 GB" against "7629 MB" are stated generically, by Classifier.UnitsNeverConverted, rather than as literal examples.
- `_bytes_to_human_readable` is not part of this model. The size rendering is a parameter of Disks.RemovableDisks.
- `lsblk` and `udevadm` invocation, JSON decoding and `splitlines` are left out. The model starts from decoded records and from split lines.
- A record's "rm" is modelled as a flag that is true exactly when "rm" is the JSON value `true`.
- A missing or non-string "name" and a non-numeric "size" raise in the source. These cases are left out.
- The error paths of `_load_disks` and `_get_disk_vendor_product` (missing tool, failing command, undecodable output) are left out.
- The message boxes of `_get_selected_disk_path` are represented by the two `SelectionError` values.
