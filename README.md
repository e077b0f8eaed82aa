# Pet of the Day widget: a verified model of its postal-code rule

The Pet of the Day widget for WordPress lets a site owner set a title and a postal code. It then embeds an Adopt-a-Pet iframe showing an adoptable pet near that location. This project models the widget's logic in Dafny:

- `update` is the save-time sanitiser. It keeps a postal code only when the code matches the Canadian pattern `^[A-Za-z][0-9][A-Za-z] ?[0-9][A-Za-z][0-9]$` or the US pattern `^(\d{5})$`. A non-empty code that matches neither is replaced by `""`. A PHP-empty code leaves the key unset.
- `widget` has a render guard: it emits nothing unless both the title and the postal code are non-empty. It then classifies the postal code as `CA` or `US` and builds the iframe address from the code and the country code.
- `form` supplies the values its inputs are pre-filled with.

The code is pure, so it is modelled with functions and lemmas:

- `wrappers.dfy` holds `Option`.
- `preg.dfy` (module `Preg`) holds the part of PCRE that the two patterns use. This covers character classes, `?`, `{n}`, and the `^`/`$` anchors. Without the `D` modifier, `$` also matches just before one final newline, and this is modelled.
- `postal_code.dfy` (module `PostalCode`) writes the two patterns out the way the source spells them. It proves that each pattern means a simple positional shape.
- `widget.dfy` (module `PetOfTheDayWidget`) models `update`, `widget` and `form`. A widget instance (a PHP array) is a `map<string, string>`. A key that is not set is absent from the map.

PHP's `empty()` on a string is true for an unset key, `""` and `"0"`. It is modelled as `PhpEmpty`.

PHP's `strip_tags` and the WordPress helpers `esc_html`, `esc_attr` and `__` are not part of this model. They are the fields of the `Host` parameter and are left uninterpreted. A lemma that needs something of them states it as a `requires`:

- `KeepsPostalChars`: escaping leaves ASCII letters, digits, the space and the newline unchanged.
- `StripIdempotent`: `strip_tags` is idempotent.

Some behaviours of the code are easy to miss:

- A PHP-empty postal code, including `"0"`, leaves the `postal_code` key unset. It is not stored as `""`. So saving an empty form gives an instance with only a `title` key.
- Saving twice is not always a no-op. An invalid code becomes `""` on the first save and is removed on the second. A title that `strip_tags` turns into `"0"` becomes `""` on the second save. From the second save on, `update` is a fixed point (`UpdateSettles`).
- A code followed by one newline, such as `"90210\n"`, is accepted and stored with the newline. PCRE's `$` allows it.
- `widget` classifies the `esc_html` output of the stored code. It also applies `esc_attr` to that already-escaped text, so the code is escaped twice. For accepted codes the escapers change nothing, so this makes no difference there.

## Model

| member | source | states |
|---|---|---|
| `Preg.ExactlyMeaning` | pet-of-the-day-widget.php:111 | `\d{5}`-style repetition matches exactly `n` characters, each in the class |
| `PostalCode.CanadianBodyMeaning` | pet-of-the-day-widget.php:110 | the Canadian pattern body matches exactly `A1A1A1` and `A1A 1A1` (letters of either case, one optional space) |
| `PostalCode.CanadianPatternMeaning` | pet-of-the-day-widget.php:73 | `preg_match` with the Canadian pattern accepts the shape, or the shape plus one final newline, and nothing else |
| `PostalCode.ZipPatternMeaning` | pet-of-the-day-widget.php:111 | `preg_match` with the ZIP pattern accepts five ASCII digits, optionally followed by one final newline, and nothing else |
| `PostalCode.PatternsDisjoint` | pet-of-the-day-widget.php:110-111 | no string matches both patterns |
| `PostalCode.AcceptedLength` | pet-of-the-day-widget.php:109-112 | an accepted code is 5 to 8 characters, so it is never PHP-empty |
| `PostalCode.AcceptedChars` | pet-of-the-day-widget.php:110-111 | an accepted code contains only ASCII letters, digits, a space and a newline |
| `PostalCode.Examples` | pet-of-the-day-widget.php:110-111 | `K1A0B1`, `k1a 0b1` and `90210` match; `ABCDE`, `9021` and a double space do not; `90210` is not Canadian; one trailing newline is accepted, two are not |
| `PetOfTheDayWidget.Update` | pet-of-the-day-widget.php:105-120 | the result has the key `title` and has `postal_code` exactly when the submitted code is not PHP-empty; the title is `""` for a PHP-empty title, otherwise `strip_tags` of it; a present code is the input if it matches a pattern, otherwise `""` |
| `PetOfTheDayWidget.UpdateSanitizes` | pet-of-the-day-widget.php:109-116 | after `update` there is a title and no key besides `title` and `postal_code`; the code is `""` or matches exactly one pattern |
| `PetOfTheDayWidget.PostalCodeOutcome` | pet-of-the-day-widget.php:109-116 | each outcome has its own condition, in both directions: the code is unset iff the input is PHP-empty, the input itself iff it matches a pattern, and `""` iff it is non-empty and matches neither |
| `PetOfTheDayWidget.UpdateIgnoresOld` | pet-of-the-day-widget.php:105-118 | the previously saved instance has no influence on the result |
| `PetOfTheDayWidget.AcceptedStoredVerbatim` | pet-of-the-day-widget.php:110-114 | `K1A0B1` and `k1a 0b1` are stored unchanged (no case folding, no space change); `ABCDE` becomes `""`; `"0"` leaves the key unset |
| `PetOfTheDayWidget.Resave` | pet-of-the-day-widget.php:107-116 | on a second save an accepted code stays, a `""` code disappears, and a stored title `"0"` becomes `""` while any other title stays |
| `PetOfTheDayWidget.UpdateFixedPoint` | pet-of-the-day-widget.php:105-120 | a saved instance whose title is not `"0"` and whose code is not `""` comes back unchanged from another save |
| `PetOfTheDayWidget.UpdateSettles` | pet-of-the-day-widget.php:105-120 | a third save changes nothing that the second produced |
| `PetOfTheDayWidget.CountryCode` | pet-of-the-day-widget.php:73-77 | the country code is `CA` or `US`, and it is `CA` iff the code matches the Canadian pattern |
| `PetOfTheDayWidget.Widget` | pet-of-the-day-widget.php:54-88 | nothing is emitted iff the title or the postal code is PHP-empty; when something is emitted, the country code is `CA` iff the escaped code matches the Canadian pattern, and otherwise `US`; for any stored code, saved or not, whose doubly escaped form and escaped country code hold no `&`, the address gives back exactly those two values |
| `PetOfTheDayWidget.IframeSrc` | pet-of-the-day-widget.php:84-88 | the address is the fixed prefix, `esc_attr` of the code, `&country_code=`, `esc_attr` of the country code and `&background=tan&size=tall`: whenever neither escaped value holds `&`, reading the address back gives both escaped values |
| `PetOfTheDayWidget.MalformedCodeClassifiedUS` | pet-of-the-day-widget.php:73-77 | a non-empty stored code that matches neither pattern (`ABCDE`) is classified `US`, because the ZIP format is not checked again |
| `PetOfTheDayWidget.ReadValuesRoundTrip` | pet-of-the-day-widget.php:84-88 | for any prefix, and any parameter and suffix that start with `&`, values without `&` are read back unchanged from `prefix + a + param + b + suffix` |
| `PetOfTheDayWidget.ReadValuesSound` | pet-of-the-day-widget.php:84-88 | whatever the reader returns holds no `&`, and the address is exactly the prefix, the first value, the parameter, the second value and the suffix |
| `PetOfTheDayWidget.ParseSrcSound` | pet-of-the-day-widget.php:84-88 | any address the widget's reader accepts is exactly the widget's prefix, a postal value, `&country_code=`, a country value and `&background=tan&size=tall`, with no `&` in either value |
| `PetOfTheDayWidget.SrcRoundTrip` | pet-of-the-day-widget.php:84-88 | the address is the fixed prefix, the postal code, `&country_code=`, the country code and `&background=tan&size=tall`, and both values are read back from it unchanged when neither holds `&` |
| `PetOfTheDayWidget.IframeSrcCarriesCodes` | pet-of-the-day-widget.php:84-88 | the iframe address built with `esc_attr` from a postal-character code and `CA`/`US` gives back that code and country code |
| `PetOfTheDayWidget.RenderedAfterSave` | pet-of-the-day-widget.php:56-58 | after a save the widget renders iff the stored title is not PHP-empty and the submitted code matched a pattern; an invalid or empty code never renders |
| `PetOfTheDayWidget.SavedCodeReachesIframe` | pet-of-the-day-widget.php:70-88 | a saved ZIP code is classified `US` and a saved Canadian code `CA`, and the iframe address carries the code and that country code |
| `PetOfTheDayWidget.Form` | pet-of-the-day-widget.php:130-150 | the title input shows `esc_attr` of the stored title whenever the key is set (even to `""`), otherwise `esc_attr` of the translated default; the code input shows `esc_attr(esc_html(code))`, or `esc_attr("")` when no code is set |
| `PetOfTheDayWidget.FormDefaultOnlyBeforeSave` | pet-of-the-day-widget.php:132-137 | an unsaved instance shows the default title `A Local Adoptable Pet` and an empty code; after a save the form shows `esc_attr` of the stored title and `esc_attr(esc_html(...))` of the stored code, so a cleared title or code stays empty |

## Left out

- Widget registration and the constructor (pet-of-the-day-widget.php:36-44, 158-160) are WordPress lifecycle plumbing with no logic of their own.
- The HTML that `widget` echoes around the iframe is output I/O and is not modelled. This covers `before_widget`, the title line through `apply_filters` and `wp_kses_post`, the wrapper `div` and `after_widget`. Only the emit/no-emit decision, the country code and the iframe `src` are modelled.
- For `form`, only the values of its two inputs are modelled. The labels, ids and field names come from WordPress field helpers.
- The bodies of PHP's `strip_tags` and of the WordPress functions `esc_html`, `esc_attr`, `__`, `apply_filters` and `wp_kses_post` are library code and are not part of this model. They are uninterpreted function parameters. Properties that depend on them state their assumption as a `requires` (`KeepsPostalChars`, `StripIdempotent`).
- Values that are not strings (PHP `null`, arrays, integers) in an instance are not modelled. A request that submits a non-string value is not modelled (PHP 8 raises a TypeError in `preg_match`).
