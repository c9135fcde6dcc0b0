/**
  Blob names for store keys (BlobStore.GetBlobName): a key is split on every
  character that is invalid in a file name and the pieces are joined again
  with "_".  The set of invalid characters depends on the platform, so it is
  a parameter here.
*/
module BlobNames {
  import opened Wrappers

  /** The number of characters of `s` that are in `separators`. */
  function Occurrences(s: string, separators: set<char>): nat
  {
    if s == [] then 0
    else (if s[0] in separators then 1 else 0) + Occurrences(s[1..], separators)
  }

  predicate NoneOf(s: string, chars: set<char>)
  {
    forall i :: 0 <= i < |s| ==> s[i] !in chars
  }

  /**
    `string.Split(char[])` without options, for a non-empty separator array:
    every separator ends a piece, and empty pieces are kept, so "a//b" gives
    ["a", "", "b"] and "" gives [""].  (.NET splits on white space when the
    array is empty; the invalid file-name characters never are.)
  */
  function Split(s: string, separators: set<char>): (pieces: seq<string>)
    ensures |pieces| == Occurrences(s, separators) + 1
    ensures forall i :: 0 <= i < |pieces| ==> NoneOf(pieces[i], separators)
  {
    if s == [] then [""]
    else
      var rest := Split(s[1..], separators);
      if s[0] in separators then [""] + rest
      else [[s[0]] + rest[0]] + rest[1..]
  }

  /** The summed lengths of `parts`. */
  function TotalLength(parts: seq<string>): nat
  {
    if parts == [] then 0 else |parts[0]| + TotalLength(parts[1..])
  }

  /** `string.Join(sep, parts)`: the parts with `sep` between neighbours. */
  function Join(sep: string, parts: seq<string>): (joined: string)
    ensures |parts| > 0 ==> |joined| == TotalLength(parts) + (|parts| - 1) * |sep|
    ensures |parts| > 0 ==> joined[..|parts[0]|] == parts[0]
  {
    if |parts| == 0 then ""
    else if |parts| == 1 then parts[0]
    else parts[0] + sep + Join(sep, parts[1..])
  }

  /**
    Joining two non-empty runs of parts is joining each and putting one
    separator between them; with `Join(sep, [x]) == x` this fixes every
    join: the parts in order, one separator between neighbours.
  */
  lemma {:induction false} JoinAppend(sep: string, a: seq<string>, b: seq<string>)
    requires |a| > 0 && |b| > 0
    ensures Join(sep, [a[0]]) == a[0]
    ensures Join(sep, a + b) == Join(sep, a) + sep + Join(sep, b)
  {
    assert (a + b)[0] == a[0];
    if |a| == 1 {
      assert (a + b)[1..] == b;
    } else {
      assert (a + b)[1..] == a[1..] + b;
      JoinAppend(sep, a[1..], b);
    }
  }

  /** `s` with every character of `chars` replaced by `c`, at the same length. */
  function Replaced(s: string, chars: set<char>, c: char): string
  {
    seq(|s|, i requires 0 <= i < |s| => if s[i] in chars then c else s[i])
  }

  /**
    The reference meaning of sanitisation: same length as `s`, every
    character of `invalid` replaced by '_', every other character kept.
  */
  function Sanitized(s: string, invalid: set<char>): string
  {
    Replaced(s, invalid, '_')
  }

  /** Prefixing the first part prefixes the joined string. */
  lemma {:induction false} JoinPrefixFirst(sep: string, x: string, parts: seq<string>)
    requires |parts| >= 1
    ensures Join(sep, [x + parts[0]] + parts[1..]) == x + Join(sep, parts)
  {
    var q := [x + parts[0]] + parts[1..];
    assert q[0] == x + parts[0];
    if |parts| > 1 {
      assert q[1..] == parts[1..];
      assert Join(sep, q) == (x + parts[0]) + sep + Join(sep, parts[1..]);
    }
  }

  /**
    Joining the pieces of a split with any one character `c` puts `c` exactly
    where the separators were.  With the piece count of `Split`, this fixes
    every piece once `c` does not occur in `s`: the pieces are the runs of
    non-separators between consecutive separators.
  */
  lemma {:induction false} JoinSplitIsReplaced(s: string, separators: set<char>, c: char)
    ensures Join([c], Split(s, separators)) == Replaced(s, separators, c)
  {
    if s != [] {
      var rest := Split(s[1..], separators);
      JoinSplitIsReplaced(s[1..], separators, c);
      var d := if s[0] in separators then c else s[0];
      assert Replaced(s, separators, c) == [d] + Replaced(s[1..], separators, c);
      if s[0] in separators {
        var parts := [""] + rest;
        assert parts[1..] == rest;
        assert Join([c], parts) == "" + [c] + Join([c], rest);
      } else {
        JoinPrefixFirst([c], [s[0]], rest);
      }
    }
  }

  /** Splitting on the invalid characters and joining with "_" sanitises. */
  lemma JoinSplitIsSanitized(s: string, invalid: set<char>)
    ensures Join("_", Split(s, invalid)) == Sanitized(s, invalid)
  {
    JoinSplitIsReplaced(s, invalid, '_');
  }

  /**
    GetBlobName: None (ArgumentNullException) for a null or empty key,
    otherwise the key with its invalid characters replaced by '_'.
  */
  function GetBlobName(key: Option<string>, invalid: set<char>): (name: Option<string>)
    ensures name.None? <==> key.None? || key.value == ""
    ensures name.Some? ==> name.value == Sanitized(key.value, invalid)
  {
    if key.None? || key.value == "" then None
    else
      JoinSplitIsSanitized(key.value, invalid);
      Some(Join("_", Split(key.value, invalid)))
  }

  /** With '_' itself valid, a blob name holds no invalid character. */
  lemma BlobNameIsValid(key: Option<string>, invalid: set<char>)
    requires '_' !in invalid
    requires GetBlobName(key, invalid).Some?
    ensures NoneOf(GetBlobName(key, invalid).value, invalid)
  {
  }

  /** Sanitising a blob name again gives the same name. */
  lemma BlobNameIdempotent(key: Option<string>, invalid: set<char>)
    requires GetBlobName(key, invalid).Some?
    ensures GetBlobName(GetBlobName(key, invalid), invalid) == GetBlobName(key, invalid)
  {
    var name := GetBlobName(key, invalid).value;
    assert Sanitized(name, invalid) == name;
  }

  /**
    Distinct keys can share a blob name: replacing an invalid character of a
    key by '_' yields a different key with the same name.
  */
  lemma DistinctKeysCollide(key: string, i: nat, invalid: set<char>)
    requires i < |key| && key[i] in invalid && key[i] != '_'
    ensures key[i := '_'] != key
    ensures GetBlobName(Some(key[i := '_']), invalid) == GetBlobName(Some(key), invalid)
  {
    assert key[i := '_'][i] != key[i];
    assert Sanitized(key[i := '_'], invalid) == Sanitized(key, invalid);
  }
}
