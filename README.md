# Admin Columns plain logic, in Dafny

This project models the parts of the Admin Columns WordPress plugin that are
plain logic rather than calls into WordPress:

- **Column identifiers** (`CPAC_Utility`): recognising custom-field columns
  (`column-meta-…` anywhere in the name) and taxonomy columns (names starting
  with `column-taxonomy-` or `taxonomy-`); classifying a name into its name
  type; extracting the post type of a `column-user_postcount-…` column and the
  taxonomy of a taxonomy column; picking the author field a name-type setting
  selects from a user record.
- **Meta keys of a post type** (`CPAC_Storage_Model_Post`): the loop that drops
  hidden keys (first character `_`) or renames them with the `cpachidden`
  prefix, keeps the order, and answers false instead of an empty list; a
  query error passed on as false.
- **Path scope of a file column** (`AC_Settings_Column_PathScope`): `https://`
  read as `http://`, then the value shown in full, relative to the home URL
  (with a leading `/`) or relative to the uploads base URL; the stored scope,
  with its getter and setter and its default `full`.
- **Settings tabs** (`AC_Admin_Pages`): an insertion-ordered registry of tabs by
  slug with a remembered default slug, lookup with fallback to the default,
  and the tab menu (registration order, unlisted tabs skipped, the current tab
  marked active).

The PHP built-ins these rely on are modelled in `php.dfy` with PHP 8
semantics: `strpos(..) === 0` is a prefix test, `strpos(..) !== false` a
substring test, `str_replace` with one search string replaces every
non-overlapping occurrence from left to right, and the strings `''` and `'0'`
are falsy. The one call with an array of search strings (the taxonomy of a
column name) is written out in `Utility.TaxonomyByColumnName` as two
deletions in a row, one per search string, in array order.

Host values are parameters: the home URL (`home_url('/')`), the uploads base
URL, the requested `tab` query parameter, the `cpac_use_hidden_custom_fields`
flag, the user record `get_userdata` returns (or false), the meta-key query's
outcome and the post type's label. Every filter is the identity.

Files: `php.dfy` (module `Php`), `utility.dfy` (`Utility`),
`storage_post.dfy` (`StoragePost`), `path_scope.dfy` (`PathScope`),
`admin_pages.dfy` (`AdminPages`).

## Model

| member | source | states |
|---|---|---|
| `Php.StrPos` | classes/utility.php:59 | `strpos`: the index returned is an occurrence of the needle and no earlier index is one; false exactly when the needle occurs nowhere |
| `Php.Contains` | classes/utility.php:59 | `strpos(..) !== false` holds exactly when the needle occurs at some index |
| `Php.StartsWith` | classes/utility.php:76 | `strpos(..) === 0` holds exactly when the needle is a prefix |
| `Php.IsFalsyString` | classes/utility.php:273-274 | `empty()` / `!` on a string holds exactly for the empty string and the one-character string `0` |
| `Php.Substr` | classes/storage_model/post.php:93-98 | `substr`: at most `length` characters taken from `start` on, fewer only at the end of the string, and '' past the end |
| `Php.StrReplace` | classes/utility.php:115 | `str_replace` never lengthens the subject when the replacement is no longer than the search string |
| `Php.StrReplaceAbsent` | classes/utility.php:115 | `str_replace` leaves a subject without the search string unchanged |
| `Php.StrReplaceAfterPrefix` | classes/utility.php:115 | scanning left to right: whatever stands before the first occurrence is kept, that occurrence is replaced, and the scan resumes right after it |
| `Php.StrReplaceFirstOccurrence` | classes/utility.php:114-115 | the same stated by index: the first occurrence (the index `strpos` returns) is the first one replaced |
| `Php.StrReplaceDeleteOnce` | classes/utility.php:115 | deleting a search string that occurs exactly once removes exactly that occurrence |
| `Php.StrReplaceSkips` | classes/utility.php:135 | characters that cannot start an occurrence pass through `str_replace` and the scan continues after them |
| `Php.StrReplaceLeading` | classes/utility.php:115 | an occurrence at the start is replaced and the scan resumes right after it |
| `Php.StrReplaceDeleteShrinks` | classes/utility.php:115 | deleting with `str_replace` never lengthens the subject, and removes at least one search string's length when it occurs |
| `Utility.IsColumnCustomField` | classes/utility.php:58-63 | true exactly when `column-meta-` occurs anywhere in the name |
| `Utility.IsColumnTaxonomy` | classes/utility.php:75-80 | true exactly when the name starts with `column-taxonomy-` or with `taxonomy-` |
| `Utility.TaxonomyTypeIsNotCustomField` | classes/utility.php:92-98 | the replaced name `column-taxonomy` does not pass the custom-field test that follows |
| `Utility.ColumnNameType` | classes/utility.php:90-101 | `column-taxonomy` for every taxonomy name (even one containing `column-meta-`), `column-meta` for other custom-field names, the name itself otherwise |
| `Utility.PosttypeByPostcountColumn` | classes/utility.php:113-119 | false exactly when `column-user_postcount-` occurs nowhere; otherwise a string at least one marker shorter than the name |
| `Utility.PosttypeOfPostcountColumn` | classes/utility.php:113-119 | `column-user_postcount-` + p gives p when p does not contain the marker |
| `Utility.PosttypeOfEmbeddedMarker` | classes/utility.php:114-115 | the marker need not lead: head + marker + p gives head + p whenever that marker is the first occurrence and p contains none |
| `Utility.TaxonomyByColumnName` | classes/utility.php:131-136 | false exactly for names that are not taxonomy columns; otherwise a string at least `taxonomy-` shorter than the name |
| `Utility.TaxonomyLength` | classes/utility.php:135 | the two successive deletions shorten a taxonomy column name by at least the length of `taxonomy-` |
| `Utility.TaxonomyOfColumnTaxonomy` | classes/utility.php:131-136 | `column-taxonomy-` + t gives t when t contains no `taxonomy-` |
| `Utility.TaxonomyOfShortTaxonomy` | classes/utility.php:131-136 | `taxonomy-` + t gives t when t contains no `taxonomy-` |
| `Utility.AuthorFieldByNametype` | classes/utility.php:255-300 | each single-field name type gives exactly its property (by an independent table), an unknown one the display name, `first_last_name` exactly the first name (or '' when it is empty) followed by a space and the last name when the last name is not empty; a missing user reads as null |
| `Utility.UnknownNametypeIsDisplayName` | classes/utility.php:294-296 | an unrecognised name type gives the same value as `display_name` |
| `Utility.FirstLastNameJoined` | classes/utility.php:272-276 | first and last name set: `first last` |
| `Utility.FirstLastNameLeadingSpace` | classes/utility.php:272-276 | empty first name, set last name: a leading space before the last name |
| `StoragePost.IsHiddenKey` | classes/storage_model/post.php:92-98 | `substr($key, 0, 1) == "_"` holds exactly when the key's first character is `_` (never for the empty key) |
| `StoragePost.CombinedFieldsLength` | classes/storage_model/post.php:90-101 | the list is never longer than the input, and as long as it when hidden keys are admitted |
| `StoragePost.CombinedFieldsAppend` | classes/storage_model/post.php:90-101 | the list of a concatenation is the concatenation of the lists, so relative order is kept |
| `StoragePost.CombinedFieldsRenamesInPlace` | classes/storage_model/post.php:93-99 | with hidden keys admitted, position i holds `cpachidden` + key when the key is hidden and the key otherwise |
| `StoragePost.CombinedFieldsDropsHidden` | classes/storage_model/post.php:87-100 | with hidden keys refused, a key is in the list exactly when it is in the input and not hidden |
| `StoragePost.CombinedFieldsVisibleUnchanged` | classes/storage_model/post.php:97-100 | keys that are not hidden are copied unchanged, under either flag |
| `StoragePost.PostStorageModel.constructor` | classes/storage_model/post.php:10-14 | sets the post type, its label and the kind `post` |
| `StoragePost.PostStorageModel.MaybeAddHiddenMeta` | classes/storage_model/post.php:81-107 | false for a false or empty input; otherwise the combined list, or false when it is empty; never longer than the input, as long as it when hidden keys are admitted |
| `StoragePost.PostStorageModel.GetMetaKeys` | classes/storage_model/post.php:116-125 | a query error gives false; rows give the filtered key list |
| `PathScope.DefineOptions` | classes/Settings/Column/PathScope.php:11-15 | the only option is `path_scope`, defaulting to `full` |
| `PathScope.FormatPath` | classes/Settings/Column/PathScope.php:52-83 | falsy value gives ''; `full` or any unknown scope gives the https-normalised value; `relative-domain` strips a normalised home-URL prefix and adds `/`; `relative-uploads` strips a normalised base-URL prefix and adds nothing |
| `PathScope.NormalizeScheme` | classes/Settings/Column/PathScope.php:57-70 | after the rewrite no `https://` is left anywhere, and a URL without one is unchanged |
| `PathScope.NoHttpsLeft` | classes/Settings/Column/PathScope.php:57 | every `https://` is rewritten, including one formed across a kept character and rewritten text |
| `PathScope.RewrittenStartWithoutH` | classes/Settings/Column/PathScope.php:57 | a start of the rewritten string without any `h` was already the start of the original |
| `PathScope.NormalizeSchemeHttps` | classes/Settings/Column/PathScope.php:57 | a leading `https://` becomes `http://` |
| `PathScope.NormalizeSchemeHttp` | classes/Settings/Column/PathScope.php:57 | a leading `http://` is kept |
| `PathScope.PrefixWithoutHttps` | classes/Settings/Column/PathScope.php:57-61 | the start of a string without `https://` is itself without it |
| `PathScope.RelativeDomainStripsHomeUrl` | classes/Settings/Column/PathScope.php:60-67 | home URL + path formats to `/` + path under `relative-domain` |
| `PathScope.RelativeUploadsStripsBaseUrl` | classes/Settings/Column/PathScope.php:68-76 | base URL + path formats to path under `relative-uploads` |
| `PathScope.FormatIgnoresValueScheme` | classes/Settings/Column/PathScope.php:57 | a value under `https://` formats as the same value under `http://` |
| `PathScope.FormatIgnoresUrlScheme` | classes/Settings/Column/PathScope.php:61-70 | home and base URLs under `https://` format values as under `http://` |
| `PathScope.PathScopeSetting.constructor` | classes/Settings/Column/PathScope.php:11-15 | a new setting holds the default scope `full` |
| `PathScope.PathScopeSetting.GetPathScope` | classes/Settings/Column/PathScope.php:37-39 | returns the stored scope |
| `PathScope.PathScopeSetting.SetPathScope` | classes/Settings/Column/PathScope.php:46-50 | stores the scope and returns true |
| `PathScope.PathScopeSetting.Format` | classes/Settings/Column/PathScope.php:52-83 | formats under the stored scope |
| `PathScope.SetThenFormat` | classes/Settings/Column/PathScope.php:37-59 | after setting a scope, the getter returns it and formatting uses it |
| `AdminPages.KeyOf` | classes/Admin/Pages.php:43 | a slug is its own key, and null reads as the key `''`, so null and '' name the same tab |
| `AdminPages.MenuEntries` | classes/Admin/Pages.php:70-80 | an entry is in the menu exactly when its tab is registered and listed, with its title, active exactly when its slug is the current one |
| `AdminPages.MenuLength` | classes/Admin/Pages.php:70-80 | the menu has no more entries than registered tabs |
| `AdminPages.MenuAppend` | classes/Admin/Pages.php:70 | the menu follows registration order |
| `AdminPages.MenuDistinct` | classes/Admin/Pages.php:70-77 | distinct slugs give distinct menu entries |
| `AdminPages.OneActiveEntry` | classes/Admin/Pages.php:77 | at most one entry is active, and one is exactly when the current tab is listed |
| `AdminPages.Pages.constructor` | classes/Admin/Pages.php:17-19 | an empty registry with no default slug |
| `AdminPages.Pages.RegisterTab` | classes/Admin/Pages.php:25-33 | the tab replaces the one under its slug, a new slug goes last, other slugs are untouched, a default tab becomes the default, the registry is returned |
| `AdminPages.Pages.GetTab` | classes/Admin/Pages.php:40-48 | the tab under the slug, false when the slug was never registered |
| `AdminPages.Pages.GetCurrentTab` | classes/Admin/Pages.php:53-61 | the requested tab if registered, else the default tab if registered, else false |
| `AdminPages.Pages.Display` | classes/Admin/Pages.php:63-97 | no current tab is fatal; otherwise the menu of listed tabs in registration order, each marked active when its slug is the current tab's, and the current tab |
| `AdminPages.DisplayMarksCurrentTab` | classes/Admin/Pages.php:68-80 | the tab shown is the registered one, and the menu marks it alone, exactly when it is listed |

## Left out

- `get_types`, `get_post_types`, `sanitize_string`, `get_stored_columns`, `get_post_count`, `strip_trim`, `get_attachment_ids`, `get_licenses`, `admin_message`, `admin_notice`: WordPress registries, options, SQL, HTML escaping or process globals with echo.
- The post storage model's hook registration, `get_label` (the label is a constructor parameter), `get_default_columns` (`WP_Posts_List_Table`), the SQL text of `get_meta_keys` (its outcome is a parameter) and `manage_value` (filter dispatch and echo).
- The meta-key query's rows are given by their first column only (the query selects one column).
- `create_view` of the path-scope setting (user-interface elements).
- The parent settings class, which is not part of this model: the constructor of `PathScopeSetting` stands for it applying the default option through the setter.
- The HTML of `display`, its `do_action` calls and the current tab's own `display`; `filter_input` becomes the `requested` parameter.
- The post-date and sticky-post columns (`date-published.php`, `sticky.php`): they only wrap WordPress post and thumbnail lookups.
- PHP's conversion of numeric-string array keys to integers: slugs are kept as strings, so a slug such as `123` (whose key PHP would turn into an integer, never `===` to the string slug) is not modelled specially; a null key is read as `''`.
- Strings are sequences of Unicode characters, while PHP's `strlen`, `substr`, `strpos` and `str_replace` count bytes: for valid UTF-8 and the ASCII markers, prefixes and URLs compared here the results are the same, but byte-level offsets inside multi-byte characters are not modelled.
- `strpos` with an empty needle follows PHP 8 (index 0); earlier PHP versions answered false with a warning.
