# PiqueMe closet store and hex colour parser, in Dafny

PiqueMe is a small SwiftUI app. The user photographs clothing items, tags each
with an occasion and a clothing type, files them in an in-memory "virtual
closet", and later asks for a random item for an occasion. Two pieces of the app
hold logic rather than layout, and this project models both:

- **The closet store** of `PhotoPickerViewModel` (`closet.dfy`, module `Closet`).
  It holds an append-only sequence of `ClothingItem`s and the staging fields of
  the upload form: `selectedImage`, `occasion` and `clothingType`.
  `UploadToVirtualCloset` files the staged photo with its two labels and clears
  the form. It does nothing when no photo is staged. `GetRandomItem` trims and
  lower-cases the query and every item's occasion, keeps the items whose keys
  are equal, and returns one of them or none. The store is an immutable value.
  Every operation that changes it returns a new store. The query takes the store
  by value and returns no store, so it cannot change the closet or the staging
  fields.
- **The integer part of `Color(hex:)`** (`hex_color.dfy`, module `HexColor`).
  The input is trimmed and upper-cased, and one leading `#` is dropped. The rest
  is scanned as a hexadecimal `UInt64` named `rgb`. Red, green and blue are
  `(rgb >> 16) & 0xFF`, `(rgb >> 8) & 0xFF` and `rgb & 0xFF`.

Supporting modules:

- `ascii.dfy` (module `Ascii`): trimming of whitespace and newlines, and
  lower- and upper-casing. Only ASCII is covered.
- `seqs.dfy` (module `Seqs`): the order-preserving filter that Swift's
  `Array.filter` performs.
- `wrappers.dfy` (module `Wrappers`): `Option`, standing for Swift's `T?`.

Modelling decisions:

- The random generator behind `randomElement()` is the parameter `draw`. The
  answer is the candidate at position `draw` modulo the number of candidates.
  `EveryMatchCanBeDrawn` shows that every matching item is a possible answer.
- `UUID()` is replaced by a counter, `nextId`, kept in the store. The invariant
  `Valid` says that every id is below the counter and that no two items share
  an id.
- Images are opaque handles. The async photo loader is replaced by
  `ImageLoaded`, which is the assignment `selectedImage = uiImage` that the
  loader makes when it succeeds.
- The upload button first copies the two picker values into the view model and
  then calls the upload. `Submit` models one press and `SubmitAll` models a
  session of presses. A request's `image` stands for the last photo the loader
  delivered since the previous press, if any; `Submit` stages it with
  `ImageLoaded` before the button's statements run. A press without a photo
  leaves the two chosen labels staged.
- `Scanner.scanHexInt64` is modelled as follows. Leading whitespace is skipped,
  because that is the scanner's default set of skipped characters. Then the
  longest run of hex digits is read. A value above `UInt64.max` reads as
  `UInt64.max`. If there are no digits, `rgb` keeps its initial 0.
- A shift right by k on a `UInt64` is division by 2^k, and `& 0xFF` is the
  remainder modulo 256. Dafny's integers are unbounded and every value here is
  non-negative, so the two agree.

`uploadToVirtualCloset` takes no arguments and reads the staging fields. The
list screen reads the published `virtualCloset` array directly, which is the
`closet` field here.

## Model

| member | source | states |
|---|---|---|
| Closet.Initial | PiqueMe/SwiftUIView.swift:15-25 | A new view model has an empty closet and no staged image. It has empty occasion, clothing type and dress-me occasion. It satisfies the id invariant. |
| Closet.LastLoadWins | PiqueMe/SwiftUIView.swift:32-53 | Loading a second photo replaces the first one. An upload after two loads files only the second photo, with the staged labels and the next id. |
| Closet.UploadToVirtualCloset | PiqueMe/SwiftUIView.swift:44-59 | With no staged image, the store is returned unchanged. With a staged image, the closet grows by exactly one item. Earlier items keep their positions. The new last item carries the staged image, occasion and clothing type exactly as they were, without normalisation. Afterwards the image is nil and both labels are empty. Ids stay unique. |
| Closet.NormalizeIgnoresPaddingAndCase | PiqueMe/SwiftUIView.swift:62-63 | The matching key (trim, then lower-case) ignores surrounding whitespace. Upper- or lower-casing the text first does not change it. |
| Closet.Candidates | PiqueMe/SwiftUIView.swift:62-63 | An item is a candidate exactly when it is in the closet and its normalised occasion equals the normalised query. |
| Closet.CandidatesInClosetOrder | PiqueMe/SwiftUIView.swift:63 | The candidates of a closet split in two are those of the first part followed by those of the second. A one-item closet yields its item exactly when its key matches. So the candidates are the matches in closet order, repeats included. |
| Closet.GetRandomItem | PiqueMe/SwiftUIView.swift:61-65 | A returned item is in the closet, and its normalised occasion equals the normalised query. The answer is nil exactly when no item's normalised occasion matches, so an empty closet always gives nil. |
| Closet.EveryMatchCanBeDrawn | PiqueMe/SwiftUIView.swift:63-64 | For every matching item, some value of the random draw makes the query return that item. |
| Closet.SameKeySameAnswer | PiqueMe/SwiftUIView.swift:62-64 | Two queries with equal trimmed, lower-cased forms get the same candidates. For the same draw, they get the same answer. |
| Closet.QueryIgnoresPaddingAndCase | PiqueMe/SwiftUIView.swift:62-63 | Queries that differ only in surrounding whitespace or letter case get the same candidates. For the same draw, they get the same answer. |
| Closet.Submit | PiqueMe/SwiftUIView.swift:173-176 | One press of the upload button with a decoded photo appends exactly one item at the end. That item carries the photo and the two chosen labels, and earlier items are untouched. With an earlier photo still staged and no new one, that photo is filed with the chosen labels. With no photo at all, the closet is unchanged and the chosen labels stay staged. Afterwards no photo is staged, and the labels are empty whenever a photo was filed. |
| Closet.SubmitStep | PiqueMe/SwiftUIView.swift:173-176 | One press with no photo staged appends the press's photo with its labels, or nothing without a photo. No photo is staged afterwards, and ids stay unique. |
| Closet.SubmitAllAppendsAccepted | PiqueMe/SwiftUIView.swift:44-59 | Start with no photo staged and press upload any number of times. The earlier items stay in place. Exactly the presses that carried a photo are appended, in press order, with their labels. No photo is staged at the end, and ids stay unique. |
| Seqs.Filter | PiqueMe/SwiftUIView.swift:63 | The filter's result is no longer than its input. Each kept element is from the input and satisfies the predicate. |
| Seqs.FilterComplete | PiqueMe/SwiftUIView.swift:63 | Every input element that satisfies the predicate is kept. |
| Seqs.FilterSingleton | PiqueMe/SwiftUIView.swift:63 | A one-element sequence is kept exactly when its element satisfies the predicate. |
| Seqs.FilterAppend | PiqueMe/SwiftUIView.swift:63 | Filtering a concatenation is the concatenation of the filtered parts. With the one-element case this fixes the result: matches keep their input order and repeats. |
| Seqs.FilterMembers | PiqueMe/SwiftUIView.swift:63 | An element is in the filter's result exactly when it is in the input and satisfies the predicate. |
| Ascii.LeadingWhitespace | PiqueMe/SwiftUIView.swift:62 | The left cut of trimming: every character before it is whitespace, and the character at it, if any, is not. |
| Ascii.ContentEnd | PiqueMe/SwiftUIView.swift:62 | The right cut of trimming: every character from it on is whitespace, and the character just before it, if any, is not. |
| Ascii.TrimIsTrimOf | PiqueMe/SwiftUIView.swift:62 | The trim is a contiguous part of the input. Everything outside it is whitespace, and neither of its ends is whitespace. |
| Ascii.TrimUnique | PiqueMe/SwiftUIView.swift:62 | Any substring that meets the trimming definition is the trim, so the trim is fully determined. |
| Ascii.TrimIdempotent | PiqueMe/SwiftUIView.swift:62 | Trimming twice gives the same result as trimming once. |
| Ascii.TrimLeftSkips | PiqueMe/Colors.swift:21 | Whitespace added in front of a string is dropped together with its own leading whitespace. |
| Ascii.TrimSkipsPrefix | PiqueMe/SwiftUIView.swift:62 | Whitespace added in front of a string does not change its trim. |
| Ascii.TrimSkipsSuffix | PiqueMe/SwiftUIView.swift:62 | Whitespace added behind a string does not change its trim. |
| Ascii.TrimRightAfter | PiqueMe/Colors.swift:14 | Text placed in front of a string that is not blank survives right trimming unchanged. |
| Ascii.TrimIgnoresPadding | PiqueMe/Colors.swift:14 | Whitespace added around a string does not change its trim. |
| Ascii.TrimLeftOfTrimRight | PiqueMe/Colors.swift:14 | Trimming the right end and then the left end gives the two-sided trim. |
| Ascii.TrimAfterNonWhitespace | PiqueMe/Colors.swift:14 | A string that starts with a non-whitespace character loses only its trailing whitespace. |
| Ascii.LowerForgetsCase | PiqueMe/SwiftUIView.swift:62 | Lower-casing forgets the case the text was written in: lower-casing an upper-cased or a lower-cased string gives the same result as lower-casing the string itself. |
| Ascii.UpperForgetsCase | PiqueMe/Colors.swift:14 | Upper-casing forgets the case the text was written in: upper-casing a lower-cased or an upper-cased string gives the same result as upper-casing the string itself. |
| Ascii.LowerCommutesWithTrim | PiqueMe/SwiftUIView.swift:62 | Lower-casing then trimming gives the same result as trimming then lower-casing. |
| Ascii.UpperCommutesWithTrim | PiqueMe/Colors.swift:14 | Upper-casing then trimming gives the same result as trimming then upper-casing. |
| Ascii.UpperCommutesWithTrimLeft | PiqueMe/Colors.swift:14 | Upper-casing then trimming the left end gives the same result as doing the two in the other order. |
| HexColor.HexPrefix | PiqueMe/Colors.swift:21 | The scanned digits are the longest prefix of the input made of hex digits. |
| HexColor.HexValue | PiqueMe/Colors.swift:21 | The value of n hex digits is below 16^n. |
| HexColor.HexValueAppend | PiqueMe/Colors.swift:21 | Appending digits b to digits a gives value(a) * 16^len(b) + value(b). |
| HexColor.HexValueUpper | PiqueMe/Colors.swift:14-21 | Upper-casing does not change the value of a digit string, so upper-case and lower-case hex digits read the same. |
| HexColor.ScanHexInt64 | PiqueMe/Colors.swift:21-23 | The scanned value always fits a `UInt64`. |
| HexColor.ScanSkipsWhitespace | PiqueMe/Colors.swift:21 | Whitespace in front of the digits does not change the scanned value. |
| HexColor.ScanAfterTrimLeft | PiqueMe/Colors.swift:21 | Removing leading whitespace before scanning does not change the scanned value. |
| HexColor.ScanDigits | PiqueMe/Colors.swift:21-23 | A string made only of hex digits, whose value fits a `UInt64`, scans to exactly that value. |
| HexColor.ParseRgb | PiqueMe/Colors.swift:14-24 | The parsed `rgb` always fits a `UInt64`. |
| HexColor.ParseIgnoresCase | PiqueMe/Colors.swift:14 | Two inputs that differ only in letter case parse to the same `rgb`. |
| HexColor.ParseIgnoresPaddingAndCase | PiqueMe/Colors.swift:14 | Surrounding whitespace, lower-casing and upper-casing do not change the parsed `rgb`. |
| HexColor.BodyWithoutHash | PiqueMe/Colors.swift:22-23 | An input without `#` is scanned as its trimmed, upper-cased self. |
| HexColor.BodyWithHash | PiqueMe/Colors.swift:18-21 | For `#` followed by s, the scanner reads s upper-cased and with its trailing whitespace removed. |
| HexColor.HashIsOptional | PiqueMe/Colors.swift:18-24 | `#` followed by s parses to the same `rgb` as s, for any s with no other `#`. Exactly one leading `#` is dropped. |
| HexColor.ParseDigits | PiqueMe/Colors.swift:14-24 | A hex-digit string whose value fits a `UInt64` parses to that value, whatever the case of its letters. |
| HexColor.ExtractChannels | PiqueMe/Colors.swift:27-29 | Each of red, green and blue lies in 0..255. |
| HexColor.HexChannels | PiqueMe/Colors.swift:12-29 | Each channel of any input string lies in 0..255. |
| HexColor.ChannelsLossless | PiqueMe/Colors.swift:27-29 | For any rgb below 2^24, red * 65536 + green * 256 + blue == rgb, so no information is lost. |
| HexColor.ChannelsOfPacked | PiqueMe/Colors.swift:27-29 | Bytes r, g and b packed as r * 65536 + g * 256 + b are extracted as exactly r, g and b. |
| HexColor.SixDigitSplit | PiqueMe/Colors.swift:27-29 | A six-digit value is the three two-digit bytes packed together, and each byte is below 256. |
| HexColor.SixDigitBytes | PiqueMe/Colors.swift:14-29 | For six hex digits, red is the value of digits 1-2, green of digits 3-4 and blue of digits 5-6. |
| HexColor.SixDigitChannels | PiqueMe/Colors.swift:17-29 | For six hex digits, the same channels come out with or without a leading `#`, and they are digits 1-2, 3-4 and 5-6. |

## Left out

- The async photo loading in `setImage(from:)` (PiqueMe/SwiftUIView.swift:27-42) is left out: `Task`, `loadTransferable` and `UIImage` decoding are concurrency and framework calls. Only its effect on success, the assignment to `selectedImage`, is modelled, as `ImageLoaded`. On failure the loader only logs, so the store does not change.
- `imageSelection` and its `didSet` hook are left out, because they only start that loader.
- All SwiftUI view bodies are left out. This covers the rest of SwiftUIView.swift, DressMeView.swift and VirtualClosetView.swift. They are layout and navigation. The dress-me screen only shows what `getRandomItem` returns. The first three of the upload button's four statements (SwiftUIView.swift:174-176) are modelled as `Submit`. The fourth, `showSuccessMessage = true` (:177), sets a view flag even when nothing was filed, and is left out with the view bodies. `Submit` also stages the request's photo first, which stands for the loader's last delivery since the previous press.
- The conversion of the channels to `Double` by dividing by 255.0, and the `Color(.sRGB, …)` call, are left out. They are floating point and a framework call.
- Full Unicode is left out. `trimmingCharacters(in: .whitespacesAndNewlines)` is modelled with the six ASCII whitespace characters. `lowercased()` and `uppercased()` are modelled as ASCII letter mapping. Unicode spaces, line separators, case mappings that change length, and every case mapping of a non-ASCII letter are not covered. For example, `É` to `é` is not modelled. Nor is the Kelvin sign U+212A, which `lowercased()` maps to ASCII `k`: in Swift a query written with it matches an item filed as "k", but in the model it does not. Swift compares `String`s with `==` by canonical equivalence (SwiftUIView.swift:63), so for example a precomposed and a decomposed accented letter are equal. The model compares `seq<char>` exactly.
- HexColor.ScanHexInt64: the optional `0x`/`0X` prefix that `scanHexInt64` accepts is not modelled. With it, an input such as `"0X1F"` would scan as 0x1F, but the model reads it as 0.
- Closet.GetRandomItem: only the set of possible answers is stated. The claim that `randomElement()` picks uniformly is about the probability of each answer, which is not modelled.
- `UUID()` is left out. It is replaced by the store's counter, which gives the same uniqueness guarantee inside the store.
- The `@MainActor` / `@Published` observation machinery is left out. It only refreshes the views.
