/** The Python built-ins and JSON shapes the ingestion pipeline relies on:
    None, exceptions, keys of decoded JSON objects, the outcome of an HTTP
    request, dict.get, truthiness, str.strip/lower/join, slicing, and the
    byte-wise ordering SQLite uses on TEXT columns. */
module Builtins {

  /** Python `None` or a value. */
  datatype Option<+T> = None | Some(value: T)

  /** A call that returns a value or raises; `error` names the exception. */
  datatype Result<+T> = Success(value: T) | Failure(error: string)

  /** One key of a decoded JSON object: missing, present with `null`, or
      present with a value. */
  datatype Field<+T> = Absent | Null | Present(value: T)

  /** One HTTP GET to a provider: the request failed (connection error,
      timeout, HTTP error status), the body is not JSON, or the body decoded
      and `records` is its `results` (OpenAlex) or `articles` (GDELT) key. */
  datatype Response<+T> = RequestFailed | Undecodable | Decoded(records: Field<seq<T>>)

  /** The outcome of a loop that has collected `done` and whose remaining
      iterations yield `later`: their exception, or everything in order. */
  function Continued<T>(done: seq<T>, later: Result<seq<T>>): Result<seq<T>>
  {
    match later
    case Failure(e) => Failure(e)
    case Success(rest) => Success(done + rest)
  }

  /** `d.get(key, default)`: the default stands in for a missing key only;
      a `null` value reads as None. */
  function Get<T>(f: Field<T>, default: T): Option<T>
  {
    match f
    case Absent => Some(default)
    case Null => None
    case Present(v) => Some(v)
  }

  /** `d.get(key)` */
  function Lookup<T>(f: Field<T>): Option<T>
  {
    if f.Present? then Some(f.value) else None
  }

  /** `d.get(key) or {}` for a nested object: a missing key and `null` both
      give the empty object (an empty object is its own replacement). */
  function ObjectOr<T>(f: Field<T>, empty: T): T
  {
    if f.Present? then f.value else empty
  }

  /** Python truthiness of an optional string: None and "" are falsy. */
  predicate Truthy(s: Option<string>)
  {
    s.Some? && s.value != ""
  }

  /** `a or b` where `b` is a string. */
  function Or(a: Option<string>, b: string): string
  {
    if Truthy(a) then a.value else b
  }

  function Min(a: int, b: int): int
  {
    if a <= b then a else b
  }

  /** `s[:n]` for n >= 0. */
  function Take<T>(s: seq<T>, n: nat): seq<T>
  {
    s[..Min(n, |s|)]
  }

  /** `str.isspace()` on the ASCII range: \t \n \v \f \r, \x1c-\x1f and space. */
  predicate IsSpace(c: char)
  {
    9 <= c as int <= 13 || 28 <= c as int <= 32
  }

  predicate IsBlank(s: string)
  {
    forall i :: 0 <= i < |s| ==> IsSpace(s[i])
  }

  function TrimLeft(s: string): string
  {
    if s != [] && IsSpace(s[0]) then TrimLeft(s[1..]) else s
  }

  function TrimRight(s: string): string
  {
    if s != [] && IsSpace(s[|s| - 1]) then TrimRight(s[..|s| - 1]) else s
  }

  /** `str.strip()` */
  function Strip(s: string): string
  {
    TrimRight(TrimLeft(s))
  }

  /** `str.lower()` on ASCII letters. */
  function LowerChar(c: char): char
  {
    if 'A' <= c <= 'Z' then (c as int + 32) as char else c
  }

  function Lower(s: string): string
  {
    seq(|s|, i requires 0 <= i < |s| => LowerChar(s[i]))
  }

  /** `sep.join(parts)` */
  function Join(sep: string, parts: seq<string>): string
  {
    if |parts| == 0 then ""
    else if |parts| == 1 then parts[0]
    else parts[0] + sep + Join(sep, parts[1..])
  }

  /** TEXT comparison under SQLite's BINARY collation: UTF-8 bytes compare
      in code-point order, so this is the lexicographic order on characters. */
  predicate LexLe(a: string, b: string)
  {
    a == [] || (b != [] && (a[0] < b[0] || (a[0] == b[0] && LexLe(a[1..], b[1..]))))
  }

  lemma {:induction false} LexLeTotal(a: string, b: string)
    ensures LexLe(a, b) || LexLe(b, a)
  {
    if a != [] && b != [] && a[0] == b[0] {
      LexLeTotal(a[1..], b[1..]);
    }
  }

  lemma {:induction false} LexLeTransitive(a: string, b: string, c: string)
    requires LexLe(a, b) && LexLe(b, c)
    ensures LexLe(a, c)
  {
    if a != [] && a[0] == b[0] && b[0] == c[0] {
      LexLeTransitive(a[1..], b[1..], c[1..]);
    }
  }

  // ---- strip and lower ----

  lemma {:induction false} TrimLeftBlankPrefix(w: string, s: string)
    requires IsBlank(w)
    ensures TrimLeft(w + s) == TrimLeft(s)
  {
    if w != [] {
      assert (w + s)[0] == w[0] && (w + s)[1..] == w[1..] + s;
      TrimLeftBlankPrefix(w[1..], s);
    } else {
      assert w + s == s;
    }
  }

  lemma {:induction false} TrimRightBlankSuffix(s: string, w: string)
    requires IsBlank(w)
    ensures TrimRight(s + w) == TrimRight(s)
  {
    if w != [] {
      assert (s + w)[..|s + w| - 1] == s + w[..|w| - 1];
      TrimRightBlankSuffix(s, w[..|w| - 1]);
    } else {
      assert s + w == s;
    }
  }

  /** Left-trimming `s + w` for a blank `w` trims `s`, then keeps `w` unless
      `s` was blank too. */
  lemma {:induction false} TrimLeftBlankSuffix(s: string, w: string)
    requires IsBlank(w)
    ensures IsBlank(s) ==> TrimLeft(s + w) == TrimLeft(s) == []
    ensures !IsBlank(s) ==> TrimLeft(s + w) == TrimLeft(s) + w
  {
    if s == [] {
      assert s + w == w;
      TrimLeftBlankPrefix(w, []);
      assert w + [] == w;
    } else if IsSpace(s[0]) {
      assert (s + w)[1..] == s[1..] + w;
      TrimLeftBlankSuffix(s[1..], w);
    }
  }

  /** Surrounding whitespace does not survive `strip()`. */
  lemma StripPadded(lead: string, s: string, trail: string)
    requires IsBlank(lead) && IsBlank(trail)
    ensures Strip(lead + s + trail) == Strip(s)
  {
    assert lead + s + trail == lead + (s + trail);
    TrimLeftBlankPrefix(lead, s + trail);
    TrimLeftBlankSuffix(s, trail);
    if !IsBlank(s) {
      TrimRightBlankSuffix(TrimLeft(s), trail);
    }
  }

  lemma {:induction false} LowerTrimLeft(s: string)
    ensures Lower(TrimLeft(s)) == TrimLeft(Lower(s))
  {
    if s != [] {
      assert Lower(s)[1..] == Lower(s[1..]);
      if IsSpace(s[0]) {
        LowerTrimLeft(s[1..]);
      }
    }
  }

  lemma {:induction false} LowerTrimRight(s: string)
    ensures Lower(TrimRight(s)) == TrimRight(Lower(s))
  {
    if s != [] {
      assert Lower(s)[..|s| - 1] == Lower(s[..|s| - 1]);
      if IsSpace(s[|s| - 1]) {
        LowerTrimRight(s[..|s| - 1]);
      }
    }
  }

  /** Lower-casing and stripping commute, because lower-casing maps
      whitespace to whitespace and nothing else to whitespace. */
  lemma LowerStrip(s: string)
    ensures Lower(Strip(s)) == Strip(Lower(s))
  {
    LowerTrimRight(TrimLeft(s));
    LowerTrimLeft(s);
  }
}
