# Cafe-Site: a verified model of the map link and the account/cafe rules

The cafe-listing site lets visitors browse cafes, register and log in, add
cafes and delete them. Two parts of `main.py` carry logic worth stating
exactly, and this project models both in Dafny.

- `map_link(name, loc)` builds the Google Maps embed URL on a cafe's page.
  It joins the name and location with a space and splits the result into words
  on runs of whitespace, as Python's `str.split()` does. It joins the words with
  `%20`, replaces every `&` with `and`, and puts the result between a fixed
  prefix and suffix. Module `MapLink` (`map_link.dfy`) models this with pure
  functions and proves lemmas about them. Whitespace is the character set that
  Python's `str.isspace()` accepts (`MapLink.IsSpace`).
- The route handlers `register`, `login`, `logout`, `add_cafe` and
  `delete_cafe` change the database and the login session. Module `CafeSite`
  (`cafe_site.dfy`) models them as methods of the class `Store`. The class
  holds the users table as a map from email to row, the cafe table as a map
  from id to row, the logged-in user's id, and the next ids the database hands
  out. `Store.Valid()` is the invariant that every method keeps:
  - each user row sits under its own email;
  - user ids are distinct;
  - each cafe row sits under its own id;
  - cafe names are unique;
  - every cafe owner and the session's user are existing users.

  Password hashing is not interpreted. The store receives
  `generate_password_hash` as `hash(salt, password)` and `check_password_hash`
  as `check(digest, password)`. The random salt is a parameter of `Register`.

The handlers' failures are modelled as outcomes, not as preconditions:
- a request without a session is refused, as `@login_required` refuses it
  (`Unauthorized`);
- registering a known email is refused (`EmailTaken`);
- a login fails either for an unknown email (`UnknownEmail`) or for a wrong
  password (`WrongPassword`);
- adding a cafe whose name is already used is refused (`DuplicateName`);
- deleting a missing id is refused (`NoSuchCafe`).

In the source, the last two are unhandled exceptions. The unique constraint
makes the commit fail, and `db.session.delete(None)` raises. Either way the
request ends with nothing stored, and the model gives that same state.

## Model

| member | source | states |
|---|---|---|
| MapLink.Split | main.py:185 | `s.split()` yields only words that are non-empty and contain no whitespace character |
| MapLink.ReplaceAmp | main.py:185 | `.replace("&", "and")` leaves no `&`, never shortens the string, adds no whitespace, and is the identity on strings without `&` |
| MapLink.Link | main.py:187-188 | the link is exactly the fixed prefix `https://maps.google.com/maps?q=`, then the query, then the fixed suffix `&t=&z=13&ie=UTF8&iwloc=&output=embed` |
| MapLink.SplitSeparated | main.py:185 | a non-empty run of whitespace separates words: `(a + w + b).split() == a.split() + b.split()` |
| MapLink.SplitNameAndLocation | main.py:185 | the words of `name + " " + loc` are the words of `name` followed by the words of `loc` |
| MapLink.SplitEmptyIff | main.py:185 | a string yields no words if and only if it is empty or all whitespace |
| MapLink.SplitIgnoresPadding | main.py:185 | leading and trailing whitespace does not change the words |
| MapLink.SplitCollapsesSpace | main.py:185 | a run of several whitespace characters splits like one space |
| MapLink.SplitJoinRoundTrip | main.py:185 | splitting undoes joining with a space, for words without whitespace |
| MapLink.ConcatSplit | main.py:185 | the words, put back together, are exactly the input's non-whitespace characters in order |
| MapLink.ReplaceAmpJoin | main.py:185 | replacing `&` in a joined string equals replacing it in every word and in the separator |
| MapLink.QueryIsJoinedWords | main.py:185 | the query is the words of `name` and then of `loc`, each with `&` turned into `and`, joined by `%20` |
| MapLink.QueryIsClean | main.py:185 | the query contains no whitespace character and no `&` |
| MapLink.QueryEmptyIff | main.py:185 | the query is empty if and only if both name and location are empty or all whitespace |
| MapLink.QueryDependsOnlyOnWords | main.py:185 | inputs with the same words give the same query, so extra or repeated whitespace changes nothing |
| MapLink.LinkIgnoresPadding | main.py:184-188 | whitespace around the name or the location leaves the link unchanged |
| MapLink.LinkHasNoSpace | main.py:184-188 | the whole link contains no whitespace character, whatever the inputs |
| CafeSite.Store.constructor | main.py:31-54 | a fresh database has empty tables, no session, and satisfies the invariant |
| CafeSite.Store.Register | main.py:130-147 | a known email changes nothing and logs nobody in; otherwise exactly one row is added under that email, holding `hash(salt, password)`, and the session becomes the new user; cafes are untouched; unique emails and ids are kept |
| CafeSite.Store.Login | main.py:150-165 | an unknown email and a wrong password are distinct refusals that leave the session as it was; otherwise the session becomes that user's id; the tables are untouched |
| CafeSite.Store.Logout | main.py:168-172 | nobody is logged in afterwards; the request is refused if nobody was logged in |
| CafeSite.Store.AddCafe | main.py:80-101 | refused without a session or for a name already used, both leaving everything unchanged; otherwise exactly one cafe is added under a fresh id, holding every submitted field, owned by the logged-in user; all other cafes are unchanged |
| CafeSite.Store.DeleteCafe | main.py:175-181 | refused without a session or for an unknown id, both leaving the table unchanged; otherwise exactly that id is removed and every other cafe stays |
| CafeSite.RegisterThenLogin | main.py:130-165 | if `check` accepts a hash of its own password, a new user can log in with the password they registered, and registering the same email again is refused |
| CafeSite.AddThenDelete | main.py:80-101 | adding a cafe and then deleting the id it was given restores the cafe table |

## Left out

- `forms.py` is not part of this model. Form validation (`DataRequired`, `URL`) is done by a form library. Each handler is modelled on a submission that passed validation. A GET request or an invalid form only renders a page and changes nothing.
- `edit_cafe` (main.py:104-127) is not modelled. It never commits, and line 124 reads the field object instead of its `.data`, so it reliably persists no update.
- `home` and `cafe_page` only read and render. `cafe_page` calls `map_link` on the stored name and location, and `MapLink.Link` models that call.
- The random opening times and ratings shown on pages, template rendering, redirects, flash messages, `print` output and the Flask app setup are not modelled. They are display and framework plumbing.
- The PBKDF2 hashing itself is not modelled, since it is foreign cryptographic code. `hash` and `check` are uninterpreted, and the random salt is a parameter.
- Ids come from counters that never reuse a value, which is how a database sequence behaves. SQLite without AUTOINCREMENT can reuse the largest id after that row is deleted, and the model does not capture that.
- CafeSite.Store.AddCafe: a duplicate name is modelled as a refusal that stores nothing. In the source, the commit raises an unhandled integrity error, and the model does not show that error page.
- CafeSite.Store.DeleteCafe: a missing id is modelled as a refusal. In the source, `db.session.delete(None)` raises an unhandled error. Deletion does not check ownership, and the model keeps that behaviour: any logged-in user may delete any cafe.
- Concurrent requests are not modelled; each handler runs as one atomic step.
