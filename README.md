# Credential store of the inventory manager (auth.py)

This project models the login layer of a command-line inventory manager. The
layer keeps its users in a delimited file `users.csv`, with the header
`username;password` and one row per user. The `password` column never holds the
plain password. It holds a stored value `salt:digest`, where the salt is 16
random bytes written as 32 lower-case hexadecimal characters and the digest is
the SHA-256 hex digest of the salt followed by the password.

- `passwords.dfy`, module `Passwords`: the stored-password encoding as pure
  functions. `HashPassword` builds `salt ":" digest`. `SplitAtColon` cuts a stored
  value at its first colon, and fails when there is none. `VerifyPassword`
  recomputes the digest and compares it with plain equality. The lemmas prove
  the round trip, and that verification reads everything after the first colon
  as the digest.
- `users.dfy`, module `Users`: the user table. Class `UsersFile` has two fields:
  whether the file exists, and its data rows as a sequence. `EnsureExists`
  creates a header-only file when it is missing. `CreateUser` reads the rows into
  a dictionary (`LoadUsers`). It refuses a username already present and
  otherwise appends exactly one row. `CheckLogin` scans the rows in order
  (`ScanRows`) and answers from the first row with that username. Both methods
  are proved against specification functions: `HasUser`, `FirstMatch`,
  `UserMap` and `Login`. The lemmas about those functions give the
  properties of the table.

The hash function is a parameter `hash: string -> string` of every member
that needs it. It stands for SHA-256 (FIPS 180-4) of the UTF-8 encoding, in
lower-case hex. So everything proved here holds for any hash function. The
random salt is a parameter of `CreateUser`, and it is required to be 32
lower-case hex characters.

Where the design description and the code differ, this model follows the code.
- The design describes three columns `username;salt;digest`. The code has two
  columns and keeps `salt:digest` in the second one.
- The design describes a constant-time comparison. The code compares with `==`.
- The design describes a password complexity policy, audit logging,
  timing equalisation for unknown users and a login/logout session. None of
  these exists in auth.py.

## Model

| member | source | states |
|---|---|---|
| `Passwords.HexSaltHasNoColon` | auth.py:22 | a salt of 32 lower-case hex characters contains no colon |
| `Passwords.FirstIndexOf` | auth.py:30 | the index found is the first occurrence of the character; none is found exactly when the character does not occur |
| `Passwords.SplitAtColon` | auth.py:29-32 | splitting fails exactly when there is no colon; otherwise the head has no colon and head, colon and tail give back the stored value |
| `Passwords.FirstColonOfJoin` | auth.py:24 | in `head ":" tail` with a colon-free head, the first colon is right after the head, whatever the tail holds |
| `Passwords.HashPassword` | auth.py:20-24 | the stored value starts with the salt, its first colon is at index 32, and the rest is the digest of the salt followed by the password |
| `Passwords.VerifyPassword` | auth.py:27-34 | a stored value without a colon never verifies |
| `Passwords.SplitJoin` | auth.py:24-30 | cutting `salt ":" digest` at its first colon gives back exactly the salt and the digest, even when the digest holds colons |
| `Passwords.VerifySplitsAtFirstColon` | auth.py:30-34 | for a colon-free salt, `salt ":" digest` verifies exactly when the digest of the salt followed by the password equals everything after the first colon |
| `Passwords.StoredWithColonSplits` | auth.py:30 | every stored value with a colon is a colon-free salt, a colon and a digest, so the lemma above covers all values that can verify |
| `Passwords.RoundTrip` | auth.py:20-34 | a password always verifies against the value `HashPassword` stores for it, for any hex salt and any hash function |
| `Users.FirstMatch` | auth.py:76-78 | the index returned is the first row with the username; none is returned exactly when no row has it |
| `Users.UserMapKeys` | auth.py:46-52 | a username is in the dictionary built from the rows exactly when some row carries it |
| `Users.UserMapLastRow` | auth.py:48-49 | a username's dictionary entry is the stored value of its last row |
| `Users.LoadUsers` | auth.py:46-49 | the loop builds the dictionary `UserMap` of the rows, later rows overriding earlier ones |
| `Users.ScanRows` | auth.py:74-79 | the scan answers `Login`: false when no row has the username, else verification against the first matching row |
| `Users.LoginUnknownUser` | auth.py:74-79 | a login with a username no row carries fails |
| `Users.LoginFirstRow` | auth.py:76-78 | a login is decided by the first row with the username alone |
| `Users.LoginIgnoresLaterRows` | auth.py:76-78 | rows after a row for the username never change its login |
| `Users.LoginIgnoresOtherUser` | auth.py:59-78 | appending a row for another username never changes a login |
| `Users.LoginAfterCreate` | auth.py:37-79 | appending the stored form of a password for a new username makes that username and password log in |
| `Users.UsersFile.EnsureExists` | auth.py:8-17 | afterwards the file exists; an existing file keeps its rows and a missing one becomes header-only, an empty table |
| `Users.UsersFile.CreateUser` | auth.py:37-67 | registration succeeds exactly when no row has the username; on refusal the rows are unchanged, on success exactly one row (username, stored form) is appended after the unchanged earlier rows; unique usernames stay unique |
| `Users.UsersFile.CheckLogin` | auth.py:70-79 | the rows are unchanged apart from creating a missing file, and the answer is `Login` on them |
| `Users.RegisterThenLogin` | auth.py:37-79 | a registration that succeeds is followed by a login that succeeds with the same username and password; after a refusal the login is the one the earlier table gives |

## Left out

- SHA-256 is a parameter rather than computed. So the model does not claim that a wrong password fails. That would need the hash to be injective, and the code only compares digests.
- `os.urandom` is not modelled. The salt is a parameter of `CreateUser` with the precondition that it is 32 lower-case hex characters. Randomness and salt uniqueness cannot be stated here.
- File I/O is not modelled: `os.path.exists`, opening, closing and flushing, UTF-8 encoding, and the CSV quoting of `csv.DictReader`/`DictWriter`. The file is its data rows in memory, plus a flag for whether it exists. The model assumes quoting round-trips each (username, stored) pair.
- Files that do not have the written layout are not modelled: a file that exists but is empty, with no header, and rows with missing or extra columns. I/O errors are not modelled either.
- The comparison at auth.py:34 is plain `==`. Timing is not modelled, and no constant-time behaviour is claimed.
- The interactive menus and the inventory operations in `projet 4.py` are not modelled. They only call `create_user` and `check_login`.
