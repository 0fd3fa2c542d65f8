# AffiliateWP email template tags

A model of the template-tag registry that AffiliateWP uses for its emails,
the class `Affiliate_WP_Emails_Template_Tags` and the help-text function
`affwp_get_emails_tags_list` in `includes/emails/class-email-tags.php`.

The registry keeps a PHP array from tag name to an entry holding the tag,
its description and its handler:
- `add` registers or re-registers a tag, but only when the handler is
  callable.
- `remove` unregisters a tag.
- `email_tag_exists` and `get_tags` are lookups.

`do_tags` makes one `preg_replace_callback` pass over a text with the
pattern `/{([A-z0-9\-\_]+)}/s`. Each match is replaced by `do_tag`'s result:
- a registered name gives what its handler returns for the pass's `args`
  and the name;
- an unregistered name gives the match itself.

`affwp_get_emails_tags_list` renders every entry as
`{tag} - description<br/>`.

The project has four modules:

- `OrderedTable` (`ordered_table.dfy`) models a PHP array with string keys
  as a value: a key list in insertion order plus a map.
  - Assigning to an existing key overwrites it in place.
  - Assigning to a new key appends it.
  - `unset` drops the key and its position.
  - `Table.Values()` is the order `foreach` visits.
- `TagPattern` (`tag_pattern.dfy`) models the character class, the match
  that can start at a position, and the pass's left-to-right decomposition
  of a text into copied characters and matches (`Scan`).
  - The class is taken literally. `A-z` is the ASCII range 65 to 122, so
    it also admits `[`, `\`, `]`, `^`, `_` and the backtick.
  - `{`, `|` and `}` are outside the class, so the greedy name run ends
    right before a `}` or no match starts at that position.
- `EmailTemplateTags` (`email_tags.dfy`) holds the rest:
  - `Expand`, the text one pass produces;
  - the class `TemplateTags`, with fields `tags` (the array) and `args`
    (None outside a pass);
  - `GetEmailsTagsList`, which mirrors the PHP `foreach` loop;
  - lemmas relating the pass and the listing to `add` and `remove`.
- `Optional` and `Sequences` (`common.dfy`) are small utilities.

Methods that change the registry are proved against the value-level
functions. `Add` sets `tags` to `old(tags).Set(…)` and `Remove` sets it to
`old(tags).Unset(…)`. The loop in `ReplaceTags` is proved equal to
`Expand`, and the loop in `GetEmailsTagsList` is proved equal to `Listing`.

Handlers, and the host functions behind them, are opaque. A handler is a
total function `(PassArgs, string) -> string`, where `PassArgs` is the
`args` field's value: the arguments of the pass, or None. Whether `add`
receives a callable is the datatype `Callback` (`Callable(h)` or
`NotCallable`).

## Model

| member | source | states |
|---|---|---|
| OrderedTable.Table.Has | includes/emails/class-email-tags.php:58 | `array_key_exists` on a well-formed array holds exactly for the keys in its iteration order |
| OrderedTable.Table.Values | includes/emails/class-email-tags.php:188 | the `foreach` order: one value per key, the i-th being the value stored under the i-th key in insertion order |
| OrderedTable.Table.Count | includes/emails/class-email-tags.php:85 | the count is zero exactly when the array holds no key, so the `empty($this->tags)` guard and `count(...) > 0` test the same thing |
| OrderedTable.Table.Set | includes/emails/class-email-tags.php:29-33 | after `$tags[$k] = $v` the array is well formed and holds `v` under `k`; every other key is present exactly when it was before, with its old value |
| OrderedTable.Table.Unset | includes/emails/class-email-tags.php:45 | after `unset($tags[$k])` the key is absent; every other key and its value stays |
| OrderedTable.Empty | includes/emails/class-email-tags.php:10 | the initial tag array is well formed and has count 0 |
| OrderedTable.SetAppendsNewKey | includes/emails/class-email-tags.php:29-33 | adding a new tag appends its entry at the end of the iteration order |
| OrderedTable.SetOverwriteKeepsPosition | includes/emails/class-email-tags.php:29-33 | re-adding a tag keeps the key order and replaces only that tag's entry, at its original position |
| OrderedTable.LastWriteWins | includes/emails/class-email-tags.php:29-33 | two assignments to the same key give the same array as the second alone |
| OrderedTable.UnsetDropsPosition | includes/emails/class-email-tags.php:45 | removing a present tag deletes exactly its slot; the entries before and after it keep their order |
| OrderedTable.UnsetAbsentIsNoop | includes/emails/class-email-tags.php:45 | removing an absent tag leaves the array identical |
| TagPattern.IsTagChar | includes/emails/class-email-tags.php:91 | the class `[A-z0-9\-\_]` is exactly the code points 45, 48..57 and 65..122, so both braces and the vertical bar are outside it |
| TagPattern.IsTagName | includes/emails/class-email-tags.php:91 | a capture group `([A-z0-9\-\_]+)` never contains a brace |
| TagPattern.NameRun | includes/emails/class-email-tags.php:91 | the greedy `[A-z0-9\-\_]+` run: every counted character is in the class and the next one is not |
| TagPattern.LeadingTag | includes/emails/class-email-tags.php:91 | a match found at a position is `{` + a non-empty name of class characters + `}`, and is a prefix of the text there |
| TagPattern.LeadingTagComplete | includes/emails/class-email-tags.php:91 | whenever `{name}` with a well-formed name starts the text, that is the match found there |
| TagPattern.Scan | includes/emails/class-email-tags.php:91 | every capture group the pass hands to the callback is a well-formed tag name |
| TagPattern.ScanRoundTrip | includes/emails/class-email-tags.php:91 | the pass's decomposition covers the input exactly: putting the matched text and copied characters back together gives the input |
| TagPattern.ScanPlainPrefix | includes/emails/class-email-tags.php:91 | text without `{` contains no match and is copied character by character |
| TagPattern.ScanTagPrefix | includes/emails/class-email-tags.php:91 | a well-formed `{name}` at the front is one match, and scanning resumes right after its `}` |
| TagPattern.ScanMalformedPair | includes/emails/class-email-tags.php:91 | `{}` and a brace pair holding a character outside the class are not matches and pass through as characters |
| EmailTemplateTags.ExpandPlainText | includes/emails/class-email-tags.php:91 | text outside matches is copied to the output unchanged |
| EmailTemplateTags.ExpandTagPrefix | includes/emails/class-email-tags.php:107-118 | a match is replaced by `do_tag`'s result, and the replacement is not scanned again in the same pass |
| EmailTemplateTags.ExpandMalformedPair | includes/emails/class-email-tags.php:91 | `{}` and a brace pair around a non-class character come out verbatim |
| EmailTemplateTags.ExpandDoubleBraces | includes/emails/class-email-tags.php:91 | in `{{name}}` only the inner `{name}` is a match; the outer braces stay |
| EmailTemplateTags.ExpandTagInText | includes/emails/class-email-tags.php:91 | in `p{name}q`, with no `{` in `p` or `q`, the surrounding text is copied and the tag is replaced in between |
| EmailTemplateTags.Expand | includes/emails/class-email-tags.php:91 | the `preg_replace_callback` pass: when no match names a registered tag the output equals the input, and with an empty registry it always does, so the early return at lines 85-87 loses nothing |
| EmailTemplateTags.ExpandIdempotent | includes/emails/class-email-tags.php:91 | a second pass over output whose remaining matches are all unregistered changes nothing |
| EmailTemplateTags.ExpandAfterAdd | includes/emails/class-email-tags.php:27-35 | after adding `name` with handler `h`, the text `{name}` expands to `h(args, name)` |
| EmailTemplateTags.ExpandAfterRemove | includes/emails/class-email-tags.php:44-46 | after removing `name`, the text `{name}` is left as it is |
| EmailTemplateTags.ListedTags | includes/emails/class-email-tags.php:57-59 | a tag is a key of the array exactly when some entry in `get_tags` order carries that tag |
| EmailTemplateTags.TemplateTags.constructor | includes/emails/class-email-tags.php:10-17 | a fresh registry holds no tags and no pass arguments |
| EmailTemplateTags.TemplateTags.Add | includes/emails/class-email-tags.php:27-35 | a non-callable handler leaves the table unchanged; a callable one stores `{tag, description, func}` under `tag` (an ordered-array assignment), after which `email_tag_exists(tag)` holds |
| EmailTemplateTags.TemplateTags.Remove | includes/emails/class-email-tags.php:44-46 | the table is the old one with `tag` unset, `email_tag_exists(tag)` is false afterwards, and removing an absent tag changes nothing |
| EmailTemplateTags.TemplateTags.EmailTagExists | includes/emails/class-email-tags.php:57-59 | true exactly when some entry that `get_tags` lists carries the tag |
| EmailTemplateTags.TemplateTags.GetTags | includes/emails/class-email-tags.php:68-70 | the result is the registry's own array, with its insertion order; it is well formed and each entry is listed under its own tag |
| EmailTemplateTags.TagReplacement | includes/emails/class-email-tags.php:110-117 | the replacement for one match: the whole match when its name is not a key of the table, otherwise the stored handler's result for the args and the name |
| EmailTemplateTags.TemplateTags.DoTag | includes/emails/class-email-tags.php:107-118 | an unregistered name gives back the whole match; a registered one gives its handler's result for the current `args` and the name |
| EmailTemplateTags.TemplateTags.DoTags | includes/emails/class-email-tags.php:82-96 | the result is the pass over the content with the call's args; with no tags it is the content and `args` is untouched; otherwise `args` is null afterwards |
| EmailTemplateTags.TemplateTags.ReplaceTags | includes/emails/class-email-tags.php:91 | the left-to-right loop that hands each match to `DoTag` and copies everything else produces exactly the pass's output |
| EmailTemplateTags.ListLine | includes/emails/class-email-tags.php:191 | a list line starts with `{tag}`, ends with `<br/>`, and is exactly as long as tag, description and the ten fixed characters together |
| EmailTemplateTags.Listing | includes/emails/class-email-tags.php:185-195 | the list is empty exactly when there are no entries |
| EmailTemplateTags.GetEmailsTagsList | includes/emails/class-email-tags.php:177-199 | the list is one `{tag} - description<br/>` line per entry in `get_tags` order, and is empty exactly when no tag is registered |
| EmailTemplateTags.ListingAfterAddNew | includes/emails/class-email-tags.php:188-193 | adding a new tag appends its line at the end of the list |
| EmailTemplateTags.ListingAfterOverwrite | includes/emails/class-email-tags.php:188-193 | re-adding a tag rewrites its line where it stands and keeps every other line |
| EmailTemplateTags.ListingAfterRemove | includes/emails/class-email-tags.php:188-193 | removing a tag deletes its line and keeps the others in order |
| EmailTemplateTags.RegisterThenExpand | includes/emails/class-email-tags.php:82-96 | on a fresh registry, adding a callable handler for `name` and then expanding `{name}` yields the handler's result for the call's args |
| EmailTemplateTags.RemoveThenExpand | includes/emails/class-email-tags.php:82-96 | a tag added and then removed is left verbatim by the next expansion |

## Left out

- The initial `$tags` is null, not an empty array. `empty(null)` takes the same early return in `do_tags`, `unset` on null does nothing, and `count(null)` is 0 in PHP 7. The model therefore starts from the empty table. The PHP 8 `TypeError` that `array_key_exists` and `count` raise on null is not modelled.
- Arguments of the wrong PHP type are not modelled. Tags are strings, so PHP's casting of numeric-string keys to integers is not modelled either.
- The `$args = array()` default of `do_tags` is a caller convenience; the model always takes the arguments explicitly.
- Handlers are opaque total functions returning a string. Handler exceptions, side effects, re-entrant calls into the registry, and PHP's string coercion of non-string results are not modelled.
- `preg_replace_callback` errors, such as the backtracking limit, are not modelled. Texts are sequences of characters. The pattern has no `u` modifier, so PCRE scans bytes. For UTF-8 text this finds the same matches as scanning characters, because no byte of a multi-byte UTF-8 sequence is ASCII. For other byte encodings, such as Shift-JIS, whose second bytes include ASCII braces and letters, byte-level matching is not modelled.
- The global wrappers at lines 131-168 only delegate to the singleton `affiliate_wp()->email_tags`; the class methods model them.
- `affwp_do_email_tags` (lines 210-220) adds only the `apply_filters` hook at line 216, which runs code outside this file.
- Hook registration (lines 227-230 and 278) and `affwp_setup_email_tags` (lines 237-277) are left out, since they go through WordPress actions and filters.
- The default tag handlers (lines 289-335) call host functions such as `get_bloginfo`, `home_url` and currency formatting. They are represented by opaque handlers.
- `includes/class-emails.php` (mail dispatch) and the integrations under `includes/integrations/` are not part of this model.
- Concurrency is not modelled; the registry is used from one request at a time.
