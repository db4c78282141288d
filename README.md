# Wiki page names and site membership, in Dafny

This project models two small parts of the Wikijump wiki backend and proves
properties of them.

- **Page name helpers** (`web/php/DB/Page.php`, module `PageNames`).
  `getCategoryName` gives the category part of a page's unix name (its slug),
  such as `theme` in `theme:dark`. `getTitleOrUnixName` gives the title to show.
  That is the stored title, or, when none is stored, a title made from the unix
  name. Both are pure functions of the title and the unix name. The PHP library
  calls they use are modelled one by one:
  - `strpos` is `StrPos`.
  - The loose comparison `!= false` is `LooseNotEqualFalse`. Under it, a colon
    at index 0 reads as "no colon".
  - `explode` is `Explode`. `Implode` is its inverse on separator-free pieces, proved in both directions.
  - The anchored pattern `/^[a-z0-9\-]+:/i` is `CategoryPrefixLength`, checked
    against a reference definition of the pattern's language,
    `MatchesCategoryPrefix`.
  - `str_replace("-", " ", …)` is `DashesToSpaces`.
  - `ucfirst` is `UcFirst`.
- **Site membership** (`deepwell/src/services/site_member/service.rs`, module
  `SiteMembers`). The `site_member` table is a class holding a sequence of rows
  `(site_id, user_id, date_left)`. A row is an active membership while its
  `date_left` is null.
  - `add` inserts an active row unless the pair already has one.
  - `remove` soft-deletes by setting `date_left` to the current time. It fails
    with `BadRequest` when there is no active row.
  - `get_optional` and `get` are lookups over the table.
  - The invariant "at most one active membership per (site, user) pair"
    (`AtMostOneActive`) is preserved by both updates.
  - Two guarantees are stated only under that invariant: removing a pair leaves
    no active row for it, and so a second `remove` fails. The source has no
    check of its own to enforce the invariant.

## Model

| member | source | states |
|---|---|---|
| `PageNames.CategoryName` | web/php/DB/Page.php:49-59 | getCategoryName: the result never contains a colon; when `strpos(…) != false` holds it is the text before the first colon; otherwise it is `_default`. Pinned down further by CategoryNameWithoutColon, CategoryNameLeadingColon, CategoryNameBeforeFirstColon, CategoryNameShape and CategoryNameNotDefault |
| `PageNames.LooseNotEqualFalse` | web/php/DB/Page.php:52 | PHP's loose `!= false` on a strpos result: false for `false` (None) and for 0, true for every positive index |
| `PageNames.TitleOrUnixName` | web/php/DB/Page.php:61-68 | getTitleOrUnixName: a non-null, non-empty stored title is returned as it is; a null or empty one gives FallbackTitle; the result is empty exactly when no title is stored and the whole unix name is a category prefix (or empty). Pinned down further by TitleKept, TitleMissing and FallbackTitleShape |
| `PageNames.FallbackTitle` | web/php/DB/Page.php:65 | the made title is as long as the unix name minus the removed prefix and contains no dash. FallbackTitleShape gives it character by character |
| `PageNames.StripCategoryPrefix` | web/php/DB/Page.php:65 | preg_replace of the anchored pattern: the result is a suffix of the input; the part cut off matches the pattern's language; when nothing is cut off, no prefix of the input matches. Backed by CategoryPrefixLength, CategoryPrefixLengthComplete and CategoryPrefixByFirstColon |
| `PageNames.StrPos` | web/php/DB/Page.php:52 | strpos with a one-character needle: None exactly when the character is absent; otherwise an in-range index holding the character, with no earlier occurrence |
| `PageNames.Explode` | web/php/DB/Page.php:53-54 | explode: at least one piece; no piece contains the separator; the first piece is a prefix of the input that ends at the first separator or at the end of the input |
| `PageNames.ImplodeExplode` | web/php/DB/Page.php:53 | joining the pieces of explode with the separator gives back the input, so nothing is lost |
| `PageNames.ExplodeImplode` | web/php/DB/Page.php:53 | the converse round trip: exploding a join of separator-free pieces (at least one) gives back those pieces |
| `PageNames.CategoryNameWithoutColon` | web/php/DB/Page.php:52-56 | a unix name with no colon has category `_default` |
| `PageNames.CategoryNameLeadingColon` | web/php/DB/Page.php:52-56 | a unix name whose first character is a colon has category `_default`, because strpos returns 0 and 0 loosely equals false |
| `PageNames.CategoryNameBeforeFirstColon` | web/php/DB/Page.php:52-54 | when the first colon is at an index p > 0, the category is exactly the text before index p |
| `PageNames.CategoryNameShape` | web/php/DB/Page.php:52-58 | the category never contains a colon; on the colon branch it is a non-empty proper prefix of the unix name that is followed by a colon; otherwise it is `_default` |
| `PageNames.CategoryNameNotDefault` | web/php/DB/Page.php:52-58 | a category other than `_default` comes only from a first colon at a positive index, and is the text before that colon |
| `PageNames.SlugRunLength` | web/php/DB/Page.php:65 | the length of the longest leading run of `[A-Za-z0-9-]` characters: every character in the run is of that class, and the character after it is not |
| `PageNames.CategoryPrefixLength` | web/php/DB/Page.php:65 | the prefix removed by the pattern is either empty or matches the pattern's language: one or more class characters and then a colon |
| `PageNames.CategoryPrefixLengthComplete` | web/php/DB/Page.php:65 | any prefix that matches the pattern is the one removed, so the pattern matches at most one prefix and the removal never misses it |
| `PageNames.CategoryPrefixByFirstColon` | web/php/DB/Page.php:65 | a prefix is removed exactly when the first colon has at least one character before it and all of those are `[A-Za-z0-9-]`; the removed part then ends with that colon; otherwise nothing is removed |
| `PageNames.DashesToSpaces` | web/php/DB/Page.php:65 | str_replace keeps the length; each position holds a space where the input had a dash and the input character elsewhere |
| `PageNames.UcFirst` | web/php/DB/Page.php:65 | ucfirst keeps the length and every character after the first; the first is upper-cased if it is a lower-case ASCII letter |
| `PageNames.TitleKept` | web/php/DB/Page.php:63-67 | a stored, non-empty title is returned unchanged |
| `PageNames.TitleMissing` | web/php/DB/Page.php:63-65 | a null or empty stored title gives the title made from the unix name |
| `PageNames.FallbackTitleShape` | web/php/DB/Page.php:65 | the made title is as long as the unix name minus the removed prefix; each character after the first is the stripped name's character with a dash turned into a space; the first is that character upper-cased; it contains no dash |
| `PageNames.FallbackTitleEmpty` | web/php/DB/Page.php:65 | an empty unix name gives an empty made title |
| `PageNames.StrippedPrefixIsCategory` | web/php/DB/Page.php:49-68 | whenever the made title drops a prefix, that prefix is the page's category followed by a colon |
| `SiteMembers.FirstActive` | deepwell/src/services/site_member/service.rs:93-100 | the filter of get_optional: None exactly when no row matches site, user and null date_left; otherwise the index of the first row that matches |
| `SiteMembers.ActiveRowIsFirst` | deepwell/src/services/site_member/service.rs:93-100 | under the invariant, the lookup finds any active row of the pair, so it is the only one |
| `SiteMembers.NewMember` | deepwell/src/services/site_member/service.rs:45-50 | the row add inserts has the given site and user and is active |
| `SiteMembers.AppendNewMember` | deepwell/src/services/site_member/service.rs:38-52 | appending the new row for a pair with no active membership keeps the invariant; the lookup then finds the new row; every other pair's lookup is unchanged |
| `SiteMembers.Left` | deepwell/src/services/site_member/service.rs:65-66 | the row remove writes back keeps site and user and has date_left set to the given time |
| `SiteMembers.MarkLeft` | deepwell/src/services/site_member/service.rs:62-68 | setting date_left on the pair's active row keeps the invariant; under the invariant, no active row is left for the pair; every other pair's lookup is unchanged |
| `SiteMembers.SiteMemberTable.GetOptional` | deepwell/src/services/site_member/service.rs:88-103 | returns only a row of the table that matches site and user and has a null date_left; returns None exactly when no such row exists |
| `SiteMembers.SiteMemberTable.Get` | deepwell/src/services/site_member/service.rs:82-85 | fails with NotFound exactly when get_optional returns None; otherwise returns the same row as get_optional |
| `SiteMembers.SiteMemberTable.Add` | deepwell/src/services/site_member/service.rs:30-55 | with an active membership already present: returns None and leaves the table unchanged; otherwise: appends exactly one active row for the pair and returns it; afterwards get_optional finds the pair; keeps the invariant; other pairs' lookups are unchanged |
| `SiteMembers.SiteMemberTable.Remove` | deepwell/src/services/site_member/service.rs:58-80 | with no active membership: fails with BadRequest and leaves the table unchanged; otherwise: changes only the found row, only its date_left (set to `now`), and returns it as `Success(Some(row))`; keeps the invariant, after which get_optional finds nothing for the pair; other pairs' lookups are unchanged |
| `SiteMembers.RemoveTwice` | deepwell/src/services/site_member/service.rs:62-76 | under the invariant, a second remove of the same pair fails with BadRequest; the first succeeds exactly when the pair was an active member |

## Left out

- Page.php database accessors are not modelled: `getMetadata`, `getCurrentRevision`, `getFiles` and `getSite` are peer queries, and `getLastEditUser` and `getLastEditUserOrString` look users up through `User::find`. The `getSource` and `getCompiled` stubs are not modelled either.
- The title and unix name are taken as inputs (`Option<string>` for a nullable title) rather than read through the page's getters.
- Strings are sequences of characters. PHP works on bytes, so for non-ASCII text the lengths stated here count characters, not bytes. The pattern has no `/u` flag, and PHP's `ucfirst` is ASCII-only from PHP 8.2 on (and under the C locale before that), so case folding is ASCII-only in the model too.
- SiteMembers.SiteMemberTable.GetOptional: `.one()` returns some matching row, and the database does not say which. The model takes the first in table order. Under `AtMostOneActive` there is only one anyway (`ActiveRowIsFirst`).
- SiteMembers.SiteMemberTable.Remove: "get_optional finds nothing afterwards" is only stated when the table had at most one active row per pair. The source does not enforce this, and with duplicate active rows another one would still be found.
- SiteMembers.RemoveTwice: stated under the same invariant, for the same reason.
- Operations are modelled as running one after another. In `add`, the check for an existing membership (service.rs:38) and the insert (service.rs:52) are separate statements. Two concurrent `add` calls for the same pair can both pass the check and both insert an active row, which breaks `AtMostOneActive`. The model does not capture this interleaving.
- Database failures (`?` on `insert`, `update` and `one`) are not modelled. The transaction, the logging and the unimplemented ban check (TODO at service.rs:42) are not modelled either.
- Only the columns `site_id`, `user_id` and `date_left` are modelled. The rest of the `site_member` entity (its generated primary key and any join date, which `..Default::default()` leaves unset for the database to fill in) is not part of this model. Ids are unbounded integers rather than 64-bit integers. The clock `now()` is the `now` argument of `Remove`.
- `find_or_error`, used by `get`, is not part of this model. It is modelled as turning "not found" into a `NotFound` error.
- The constructor `SiteMemberTable()`, an empty table, only sets up the model; it corresponds to no source operation.
