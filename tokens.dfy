/**
 * Callback tokens of the inline buttons (tobacco.py:90, 100, 108-109, 113-115).
 * A token is an action prefix such as `select_` followed by the exact tobacco
 * name; a handler is chosen by the prefix the token starts with, and the name
 * is recovered with Python's `token.split("_", 1)[1]`.
 */
module Tokens {
  import opened Optional

  const Separator: char := '_'
  const SelectPrefix: string := "select_"
  const EditPrefix: string := "edit_"
  const DeletePrefix: string := "delete_"

  /** An action prefix: a word without the separator, then the separator. */
  predicate IsActionPrefix(p: string) {
    |p| > 0 && p[|p| - 1] == Separator && Separator !in p[..|p| - 1]
  }

  /** The f-string `f"{prefix}{name}"` that becomes a button's callback data. */
  function Encode(prefix: string, name: string): (t: string)
    ensures prefix <= t && t[|prefix|..] == name
  {
    prefix + name
  }

  /** Position of the first `c` in `s`, if any. */
  function IndexOf(s: string, c: char): (r: Option<nat>)
    ensures r.None? <==> c !in s
    ensures r.Some? ==> r.value < |s| && s[r.value] == c && c !in s[..r.value]
  {
    if s == [] then None
    else if s[0] == c then Some(0)
    else match IndexOf(s[1..], c)
      case None => None
      case Some(k) =>
        assert s[..k + 1] == [s[0]] + s[1..][..k];
        Some(k + 1)
  }

  /** Python's `s.split(sep, 1)`: the whole string, or the parts before and after the first `sep`. */
  function SplitOnce(s: string, sep: char): (parts: seq<string>)
    ensures sep !in s ==> parts == [s]
    ensures sep in s ==> |parts| == 2 && s == parts[0] + [sep] + parts[1] && sep !in parts[0]
  {
    match IndexOf(s, sep)
    case None => [s]
    case Some(i) =>
      assert s == s[..i] + [sep] + s[i + 1..];
      [s[..i], s[i + 1..]]
  }

  /** `token.split("_", 1)[1]`; `None` is the IndexError raised when the token has no `_`. */
  function Payload(token: string): (r: Option<string>)
    ensures r.Some? <==> Separator in token
    ensures r.Some? ==> exists head :: token == head + [Separator] + r.value && Separator !in head
  {
    var parts := SplitOnce(token, Separator);
    if |parts| > 1 then Some(parts[1]) else None
  }

  /** Splitting at the first separator is the only split whose head is free of separators. */
  lemma SplitOnceUnique(s: string, sep: char, head: string, tail: string)
    requires s == head + [sep] + tail && sep !in head
    ensures SplitOnce(s, sep) == [head, tail]
  {
    var parts := SplitOnce(s, sep);
    assert s[|head|] == sep;
    assert forall i :: 0 <= i < |head| ==> s[i] == head[i];
    assert forall i :: 0 <= i < |parts[0]| ==> s[i] == parts[0][i];
    assert parts[0] == s[..|head|] == head;
  }

  /** Decoding a token recovers the exact name it was built from, whatever `_` the name contains. */
  lemma RoundTrip(prefix: string, name: string)
    requires IsActionPrefix(prefix)
    ensures Payload(Encode(prefix, name)) == Some(name)
  {
    var head := prefix[..|prefix| - 1];
    assert Encode(prefix, name) == head + [Separator] + name;
    SplitOnceUnique(Encode(prefix, name), Separator, head, name);
  }

  /** The three prefixes the bot builds tokens with. */
  lemma PrefixesAreActionPrefixes()
    ensures IsActionPrefix(SelectPrefix) && IsActionPrefix(EditPrefix) && IsActionPrefix(DeletePrefix)
  {
  }

  /** Which callback handler a token reaches: `show_tobacco` is registered before `delete_tobacco`. */
  datatype Route = ToShow | ToDelete | Unrouted

  function RouteOf(token: string): (r: Route)
    ensures r == ToShow <==> SelectPrefix <= token
    ensures r == ToDelete <==> DeletePrefix <= token
    ensures r == Unrouted <==> !(SelectPrefix <= token) && !(DeletePrefix <= token)
  {
    PrefixesExclusive(token);
    if SelectPrefix <= token then ToShow
    else if DeletePrefix <= token then ToDelete
    else Unrouted
  }

  /**
   * Routing is unambiguous: no token starts with two of the prefixes, so the
   * registration order of the two handlers never decides anything.
   */
  lemma PrefixesExclusive(token: string)
    ensures !(SelectPrefix <= token && DeletePrefix <= token)
    ensures !(EditPrefix <= token && SelectPrefix <= token)
    ensures !(EditPrefix <= token && DeletePrefix <= token)
  {
    assert SelectPrefix <= token ==> token[0] == 's';
    assert DeletePrefix <= token ==> token[0] == 'd';
    assert EditPrefix <= token ==> token[0] == 'e';
  }

  /** Each built token reaches the handler of its own prefix; edit tokens reach none. */
  lemma RouteOfEncode(name: string)
    ensures RouteOf(Encode(SelectPrefix, name)) == ToShow
    ensures RouteOf(Encode(DeletePrefix, name)) == ToDelete
    ensures RouteOf(Encode(EditPrefix, name)) == Unrouted
  {
    assert SelectPrefix <= Encode(SelectPrefix, name);
    assert DeletePrefix <= Encode(DeletePrefix, name);
    PrefixesExclusive(Encode(DeletePrefix, name));
    PrefixesExclusive(Encode(EditPrefix, name));
  }

  /**
   * A token that reaches a handler always decodes (the handler never raises
   * IndexError), and it decodes to everything after its prefix.
   */
  lemma RoutedTokenDecodes(token: string)
    ensures RouteOf(token) == ToShow ==> Payload(token) == Some(token[|SelectPrefix|..])
    ensures RouteOf(token) == ToDelete ==> Payload(token) == Some(token[|DeletePrefix|..])
  {
    if RouteOf(token) == ToShow {
      assert token == Encode(SelectPrefix, token[|SelectPrefix|..]);
      RoundTrip(SelectPrefix, token[|SelectPrefix|..]);
    } else if RouteOf(token) == ToDelete {
      assert token == Encode(DeletePrefix, token[|DeletePrefix|..]);
      RoundTrip(DeletePrefix, token[|DeletePrefix|..]);
    }
  }
}
