/** The link record and the constraints its schema puts on stored records:
    the code pattern and uniqueness, the required target, whitespace
    trimming of both strings, the defaults for `clicks` and `lastClicked`,
    and the automatic timestamps. Saving a new record (`Link.create`) is
    modelled by `Save`. */
module LinkSchema {
  import opened Wrappers

  /** One stored link. Times are readings of an abstract clock. */
  datatype Link = Link(
    code: string,
    target: string,
    clicks: nat,
    lastClicked: Option<nat>,
    createdAt: nat,
    updatedAt: nat)

  /** The collection, keyed by the unique `code` field. */
  type Store = map<string, Link>

  /** The character class `[A-Za-z0-9]`. */
  predicate IsAlphanumeric(c: char) {
    'A' <= c <= 'Z' || 'a' <= c <= 'z' || '0' <= c <= '9'
  }

  /** The code pattern `^[A-Za-z0-9]{6,8}$`. Without the multiline flag a
      JavaScript `$` matches only at the very end, so no trailing newline
      is admitted. */
  predicate ValidCode(s: string) {
    6 <= |s| <= 8 && forall i :: 0 <= i < |s| ==> IsAlphanumeric(s[i])
  }

  /** The characters `String.prototype.trim` removes: the ECMAScript
      WhiteSpace set (tab, vertical tab, form feed, space, no-break space,
      the byte order mark and every other Unicode space separator) and the
      LineTerminator set (line feed, carriage return, U+2028, U+2029). */
  predicate IsJsWhitespace(c: char) {
    var n := c as int;
    n == 0x09 || n == 0x0A || n == 0x0B || n == 0x0C || n == 0x0D || n == 0x20
    || n == 0xA0 || n == 0x1680 || (0x2000 <= n <= 0x200A)
    || n == 0x2028 || n == 0x2029 || n == 0x202F || n == 0x205F
    || n == 0x3000 || n == 0xFEFF
  }

  /** A string with no trimmable character at either end. */
  predicate IsTrimmed(s: string) {
    s == [] || (!IsJsWhitespace(s[0]) && !IsJsWhitespace(s[|s| - 1]))
  }

  /** Drops leading whitespace: the result is a suffix of `s`, everything
      dropped is whitespace, and what is left does not start with any. */
  function TrimStart(s: string): (r: string)
    ensures |r| <= |s| && r == s[|s| - |r|..]
    ensures forall i :: 0 <= i < |s| - |r| ==> IsJsWhitespace(s[i])
    ensures r != [] ==> !IsJsWhitespace(r[0])
  {
    if |s| > 0 && IsJsWhitespace(s[0]) then TrimStart(s[1..]) else s
  }

  /** Drops trailing whitespace: the result is a prefix of `s`, everything
      dropped is whitespace, and what is left does not end with any. */
  function TrimEnd(s: string): (r: string)
    ensures |r| <= |s| && r == s[..|r|]
    ensures forall i :: |r| <= i < |s| ==> IsJsWhitespace(s[i])
    ensures r != [] ==> !IsJsWhitespace(r[|r| - 1])
  {
    if |s| > 0 && IsJsWhitespace(s[|s| - 1]) then TrimEnd(s[..|s| - 1]) else s
  }

  /** The schema's `trim: true` setter: `s` with whitespace removed from
      both ends and nothing else touched. */
  function Trim(s: string): (r: string)
    ensures IsTrimmed(r)
    ensures exists i, j ::
              && 0 <= i <= j <= |s| && r == s[i..j]
              && (forall k :: 0 <= k < i ==> IsJsWhitespace(s[k]))
              && (forall k :: j <= k < |s| ==> IsJsWhitespace(s[k]))
  {
    var t := TrimStart(s);
    var r := TrimEnd(t);
    assert r == s[|s| - |t|..|s| - |t| + |r|];
    r
  }

  /** Trimming leaves an already trimmed string alone. */
  lemma TrimOfTrimmed(s: string)
    requires IsTrimmed(s)
    ensures Trim(s) == s
  {
  }

  /** Trimming twice is trimming once. */
  lemma TrimIdempotent(s: string)
    ensures Trim(Trim(s)) == Trim(s)
  {
    TrimOfTrimmed(Trim(s));
  }

  /** A code that matches the pattern has no whitespace, so the `trim`
      setter stores it as given. */
  lemma ValidCodeIsUntouchedByTrim(s: string)
    requires ValidCode(s)
    ensures Trim(s) == s
  {
    assert !IsJsWhitespace(s[0]) && !IsJsWhitespace(s[|s| - 1]);
    TrimOfTrimmed(s);
  }

  /** What the schema guarantees of every stored record: the code matches
      the pattern, and the target is present, non-empty and trimmed. */
  predicate ValidLink(l: Link) {
    ValidCode(l.code) && l.target != "" && IsTrimmed(l.target)
  }

  /** Every key is its record's code, so no two records share a code. */
  predicate KeyedByCode(store: Store) {
    forall k :: k in store ==> store[k].code == k
  }

  /** Codes are unique and every record satisfies the schema. */
  predicate StoreInvariant(store: Store) {
    KeyedByCode(store) && forall k :: k in store ==> ValidLink(store[k])
  }

  /** Why saving a record can fail: a schema validator rejects it (code
      required or not matching the pattern, target required), or the
      unique index on `code` already holds the code. */
  datatype SaveError = ValidationError | DuplicateKey

  /** `Link.create({ code, target })` at time `now`: both strings are
      trimmed, the validators run, the unique index is consulted, and the
      new record gets `clicks = 0`, `lastClicked = null` and both
      timestamps set to `now`. */
  function Save(store: Store, code: string, target: string, now: nat): (r: Result<Link, SaveError>)
    ensures r.Ok? <==> ValidCode(Trim(code)) && Trim(target) != "" && Trim(code) !in store
    ensures r == Err(DuplicateKey) <==> ValidCode(Trim(code)) && Trim(target) != "" && Trim(code) in store
    ensures r.Ok? ==> var l := r.value;
      && ValidLink(l) && l.code !in store
      && l.code == Trim(code) && l.target == Trim(target)
      && l.clicks == 0 && l.lastClicked == None
      && l.createdAt == now && l.updatedAt == now
  {
    var c := Trim(code);
    var t := Trim(target);
    // `required` fails on the empty string; `match` on a non-matching one.
    if !ValidCode(c) || t == "" then Err(ValidationError)
    else if c in store then Err(DuplicateKey)
    else Ok(Link(c, t, 0, None, now, now))
  }

  /** Adding a valid record under its own, unused code keeps the store
      invariant and adds exactly one key. */
  lemma AddingValidLinkKeepsInvariant(store: Store, l: Link)
    requires StoreInvariant(store) && ValidLink(l) && l.code !in store
    ensures StoreInvariant(store[l.code := l])
    ensures store[l.code := l].Keys == store.Keys + {l.code}
    ensures |store[l.code := l]| == |store| + 1
  {
  }
}
