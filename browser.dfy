/**
 * The page-independent helpers of the browser runner: reading a parameter
 * from the query string, the name filter, the per-depth totals, the
 * fixed-width number shown for a total, the CSS class and caption of a
 * result, and the per-result collapsed flag kept in browser storage.
 */
module BrowserRunner {
  import opened Wrappers

  // ----- Strings -----

  /** The first position of `c` in `s`. */
  function IndexOf(s: string, c: char): (k: nat)
    requires c in s
    ensures k < |s| && s[k] == c && c !in s[..k]
  {
    if s[0] == c then 0 else 1 + IndexOf(s[1..], c)
  }

  /** `s.split(c)`: the pieces between occurrences of `c`; always at least one. */
  function Split(s: string, c: char): (parts: seq<string>)
    ensures |parts| >= 1
  {
    if s == [] then [[]]
    else
      var rest := Split(s[1..], c);
      if s[0] == c then [[]] + rest else [[s[0]] + rest[0]] + rest[1..]
  }

  /** No piece contains `c`. */
  lemma {:induction false} SplitPieces(s: string, c: char)
    ensures forall i :: 0 <= i < |Split(s, c)| ==> c !in Split(s, c)[i]
  {
    if s != [] {
      SplitPieces(s[1..], c);
    }
  }

  /** There is more than one piece exactly when `c` occurs. */
  lemma {:induction false} SplitSingle(s: string, c: char)
    ensures |Split(s, c)| == 1 <==> c !in s
  {
    if s != [] {
      SplitSingle(s[1..], c);
      assert s == [s[0]] + s[1..];
    }
  }

  /** Without `c` the text is one piece. */
  lemma {:induction false} SplitNone(s: string, c: char)
    requires c !in s
    ensures Split(s, c) == [s]
  {
    if s != [] {
      assert s[1..] == s[..][1..];
      assert c !in s[1..] by {
        assert forall i :: 0 <= i < |s[1..]| ==> s[1..][i] == s[i + 1];
      }
      SplitNone(s[1..], c);
      assert [s[0]] + s[1..] == s;
    }
  }

  /** A first piece free of `c`, then `c`: the piece comes off whole. */
  lemma {:induction false} SplitPrefix(a: string, c: char, tail: string)
    requires c !in a
    ensures Split(a + [c] + tail, c) == [a] + Split(tail, c)
  {
    var s := a + [c] + tail;
    if a == [] {
      assert s[1..] == tail;
    } else {
      assert s[1..] == a[1..] + [c] + tail;
      SplitPrefix(a[1..], c, tail);
      assert [a[0]] + a[1..] == a;
    }
  }

  /** The text of `s` before its first `c`, or all of `s` when there is none. */
  function UpTo(s: string, c: char): (r: string)
    ensures c !in r && r <= s
    ensures c in s ==> |r| == IndexOf(s, c)
  {
    if c in s then s[..IndexOf(s, c)] else s
  }

  /** The first piece of a split is the text before the first separator. */
  lemma {:induction false} SplitHead(s: string, c: char)
    ensures Split(s, c)[0] == UpTo(s, c)
  {
    if s != [] && s[0] != c {
      SplitHead(s[1..], c);
      assert s == [s[0]] + s[1..];
      if c in s {
        assert c in s[1..];
        assert s[..IndexOf(s, c)] == [s[0]] + s[1..][..IndexOf(s[1..], c)];
      } else {
        assert c !in s[1..];
      }
    }
  }

  /** The second piece of a split is the text after the first separator, up to the next one. */
  lemma ValuePiece(s: string, c: char)
    requires c in s
    ensures |Split(s, c)| >= 2
    ensures Split(s, c)[1] == UpTo(s[IndexOf(s, c) + 1..], c)
  {
    var k := IndexOf(s, c);
    assert s == s[..k] + [c] + s[k + 1..];
    SplitPrefix(s[..k], c, s[k + 1..]);
    SplitHead(s[k + 1..], c);
  }

  /** `parts.join(c)`. */
  function Join(parts: seq<string>, c: char): (r: string)
    requires |parts| >= 1
  {
    if |parts| == 1 then parts[0] else parts[0] + [c] + Join(parts[1..], c)
  }

  lemma JoinHead(x: char, parts: seq<string>, c: char)
    requires |parts| >= 1
    ensures Join([[x] + parts[0]] + parts[1..], c) == [x] + Join(parts, c)
  {
    var q := [[x] + parts[0]] + parts[1..];
    if |parts| > 1 {
      assert q[1..] == parts[1..];
    }
  }

  /** Splitting loses nothing: joining the pieces gives the text back. */
  lemma {:induction false} JoinSplit(s: string, c: char)
    ensures Join(Split(s, c), c) == s
  {
    if s != [] {
      var rest := Split(s[1..], c);
      JoinSplit(s[1..], c);
      if s[0] == c {
        assert ([[]] + rest)[1..] == rest;
      } else {
        JoinHead(s[0], rest, c);
      }
      assert s == [s[0]] + s[1..];
    }
  }

  /** Joining pieces free of `c` and splitting again gives the pieces back. */
  lemma {:induction false} SplitJoin(parts: seq<string>, c: char)
    requires |parts| >= 1 && forall i :: 0 <= i < |parts| ==> c !in parts[i]
    ensures Split(Join(parts, c), c) == parts
    decreases |parts|
  {
    if |parts| > 1 {
      SplitPrefix(parts[0], c, Join(parts[1..], c));
      SplitJoin(parts[1..], c);
    } else {
      assert Join(parts, c) == parts[0];
      SplitNone(parts[0], c);
    }
  }

  /** `s.replace(a, b)` with a one-character string pattern: only the first `a` is replaced. */
  function ReplaceFirst(s: string, a: char, b: char): (r: string)
    ensures |r| == |s|
    ensures a !in s ==> r == s
    ensures a in s ==> r[IndexOf(s, a)] == b && forall i :: 0 <= i < |s| && i != IndexOf(s, a) ==> r[i] == s[i]
  {
    if a !in s then s else s[IndexOf(s, a) := b]
  }

  /** Every `a` of `s` made `b`. */
  function ReplaceAll(s: string, a: char, b: char): (r: string)
    ensures |r| == |s| && forall i :: 0 <= i < |s| ==> r[i] == if s[i] == a then b else s[i]
  {
    if s == [] then [] else [if s[0] == a then b else s[0]] + ReplaceAll(s[1..], a, b)
  }

  lemma ReplaceAbsent(s: string, a: char, b: char)
    requires a !in s
    ensures ReplaceAll(s, a, b) == s
  {
    assert forall i :: 0 <= i < |s| ==> s[i] != a;
  }

  // ----- `param(key)` -----

  /** What `param(key)` gives: the value, `undefined`, or the `TypeError` of reading `pair[1]` when it is missing. */
  datatype Lookup = Found(value: string) | NotFound | Fails

  /** `window.location.search.substring(1)`: the query without its leading `?`. */
  function Query(search: string): (r: string) {
    if search == [] then [] else search[1..]
  }

  /** The key of an `&`-separated entry: the text before its first `=`. */
  function KeyOf(entry: string): (r: string) {
    Split(entry, '=')[0]
  }

  /**
   * The value of a matching entry as the code reads it: the text between its
   * first and second `=`, with its first `+` made a space; reading it fails
   * when there is no `=`.
   */
  function ValueOfAsWritten(entry: string): (r: Lookup)
    ensures r.Fails? <==> '=' !in entry
    ensures !r.NotFound?
  {
    SplitSingle(entry, '=');
    var pair := Split(entry, '=');
    if |pair| < 2 then Fails else Found(ReplaceFirst(pair[1], '+', ' '))
  }

  /**
   * The value of a matching entry as a form submission encodes it: every `+`
   * stands for a space.
   */
  function ValueOf(entry: string): (r: Lookup)
    ensures r.Fails? <==> '=' !in entry
    ensures !r.NotFound?
  {
    SplitSingle(entry, '=');
    var pair := Split(entry, '=');
    if |pair| < 2 then Fails else Found(ReplaceAll(pair[1], '+', ' '))
  }

  /**
   * As the code reads it, a matching entry with an `=` gives the text after
   * its first `=` up to the next `=` (or the end), of the same length, with
   * its first `+` made a space and every other character kept.
   */
  lemma ValueOfAsWrittenDecodes(entry: string)
    requires '=' in entry
    ensures var piece := UpTo(entry[IndexOf(entry, '=') + 1..], '=');
            && ValueOfAsWritten(entry).Found?
            && |ValueOfAsWritten(entry).value| == |piece|
            && ('+' in piece ==> ValueOfAsWritten(entry).value[IndexOf(piece, '+')] == ' ')
            && forall i :: 0 <= i < |piece| && ('+' !in piece || i != IndexOf(piece, '+')) ==>
                 ValueOfAsWritten(entry).value[i] == piece[i]
  {
    ValuePiece(entry, '=');
  }

  /**
   * As a form encodes it, a matching entry with an `=` gives the text after
   * its first `=` up to the next `=` (or the end), of the same length, with
   * every `+` made a space and every other character kept.
   */
  lemma ValueOfDecodes(entry: string)
    requires '=' in entry
    ensures var piece := UpTo(entry[IndexOf(entry, '=') + 1..], '=');
            && ValueOf(entry).Found?
            && |ValueOf(entry).value| == |piece|
            && '+' !in ValueOf(entry).value
            && forall i :: 0 <= i < |piece| ==>
                 ValueOf(entry).value[i] == if piece[i] == '+' then ' ' else piece[i]
  {
    ValuePiece(entry, '=');
  }

  /** How a value's `+` signs are read: the first one only, as line 39 does, or every one, as a form encodes spaces. */
  datatype Decoding = AsWritten | EveryPlus

  function Decode(entry: string, d: Decoding): (r: Lookup)
    ensures r.Fails? <==> '=' !in entry
    ensures !r.NotFound?
  {
    match d
    case AsWritten => ValueOfAsWritten(entry)
    case EveryPlus => ValueOf(entry)
  }

  /** The lookup over the `&`-separated entries: the first entry whose key is `key` decides. */
  function LookupIn(vars: seq<string>, key: string, d: Decoding): (r: Lookup) {
    if vars == [] then NotFound
    else if KeyOf(vars[0]) == key then Decode(vars[0], d)
    else LookupIn(vars[1..], key, d)
  }

  /** Entry `i` is the first one whose key is `key`. */
  predicate FirstMatch(vars: seq<string>, key: string, i: nat) {
    i < |vars| && KeyOf(vars[i]) == key && forall j :: 0 <= j < i ==> KeyOf(vars[j]) != key
  }

  /** Nothing is found exactly when no entry has the key. */
  lemma {:induction false} LookupNotFound(vars: seq<string>, key: string, d: Decoding)
    ensures LookupIn(vars, key, d).NotFound? <==> forall i :: 0 <= i < |vars| ==> KeyOf(vars[i]) != key
  {
    if vars != [] {
      LookupNotFound(vars[1..], key, d);
      assert forall i :: 1 <= i < |vars| ==> vars[i] == vars[1..][i - 1];
    }
  }

  /** Otherwise the result is the value of the first entry with the key, decoded. */
  lemma {:induction false} LookupFirst(vars: seq<string>, key: string, d: Decoding, i: nat)
    requires FirstMatch(vars, key, i)
    ensures LookupIn(vars, key, d) == Decode(vars[i], d)
  {
    if i > 0 {
      assert FirstMatch(vars[1..], key, i - 1) by {
        assert forall j :: 0 <= j < i - 1 ==> vars[1..][j] == vars[j + 1];
      }
      LookupFirst(vars[1..], key, d, i - 1);
    }
  }

  /** The lookup fails exactly when the first entry with the key has no `=`, as in `?debug`. */
  lemma {:induction false} LookupFails(vars: seq<string>, key: string, d: Decoding)
    ensures LookupIn(vars, key, d).Fails? <==> exists i: nat :: FirstMatch(vars, key, i) && '=' !in vars[i]
  {
    if vars == [] {
    } else if KeyOf(vars[0]) == key {
      assert FirstMatch(vars, key, 0);
      assert forall i: nat :: FirstMatch(vars, key, i) ==> i == 0;
    } else {
      var tail := vars[1..];
      LookupFails(tail, key, d);
      if exists i: nat :: FirstMatch(tail, key, i) && '=' !in tail[i] {
        var i: nat :| FirstMatch(tail, key, i) && '=' !in tail[i];
        assert FirstMatch(vars, key, i + 1) by {
          assert forall j :: 1 <= j < i + 1 ==> vars[j] == tail[j - 1];
        }
      }
      if exists i: nat :: FirstMatch(vars, key, i) && '=' !in vars[i] {
        var i: nat :| FirstMatch(vars, key, i) && '=' !in vars[i];
        assert FirstMatch(tail, key, i - 1) by {
          assert forall j :: 0 <= j < i - 1 ==> tail[j] == vars[j + 1];
        }
      }
    }
  }

  /**
   * `param(key)`, with the page's search string passed in and
   * `decodeURIComponent` taken as the identity.
   */
  method Param(search: string, key: string) returns (r: Lookup)
    ensures r == LookupIn(Split(Query(search), '&'), key, AsWritten)
  {
    var query := Query(search);
    var vars := Split(query, '&');
    for i := 0 to |vars|
      invariant LookupIn(vars, key, AsWritten) == LookupIn(vars[i..], key, AsWritten)
    {
      assert vars[i..][1..] == vars[i + 1..];
      var pair := Split(vars[i], '=');
      if pair[0] == key {
        if |pair| < 2 {
          return Fails;
        }
        var value := ReplaceFirst(pair[1], '+', ' ');
        return Found(value);
      }
    }
    assert vars[|vars|..] == [];
    return NotFound;
  }

  /** A search string holding a single entry: the lookup of its key is that entry, decoded. */
  lemma SingleEntry(key: string, value: string, d: Decoding)
    requires '=' !in key && '&' !in key && '&' !in value
    ensures LookupIn(Split(Query("?" + key + "=" + value), '&'), key, d) == Decode(key + "=" + value, d)
  {
    var entry := key + "=" + value;
    assert "?" + key + "=" + value == "?" + entry;
    assert Query("?" + entry) == entry;
    assert '&' !in entry;
    SplitNone(entry, '&');
    EntryPrefix(key, value);
  }

  /** The first `c` of `s` found by inspection. */
  lemma {:induction false} IndexOfAt(s: string, c: char, k: nat)
    requires k < |s| && s[k] == c && c !in s[..k]
    ensures IndexOf(s, c) == k
  {
    if k > 0 {
      assert s[0] in s[..k];
      assert s[1..][..k - 1] == s[1..k];
      IndexOfAt(s[1..], c, k - 1);
    }
  }

  lemma EntryPrefix(key: string, tail: string)
    requires '=' !in key
    ensures Split(key + "=" + tail, '=') == [key] + Split(tail, '=')
  {
    SplitPrefix(key, '=', tail);
  }

  lemma EntrySplit(key: string, value: string)
    requires '=' !in key && '=' !in value
    ensures Split(key + "=" + value, '=') == [key, value]
  {
    EntryPrefix(key, value);
    SplitNone(value, '=');
  }

  /**
   * As written, only the first `+` of a value becomes a space: a filter
   * typed as `w1 w2` where `w2` itself holds a space comes back with a `+`.
   */
  lemma FormValueAsWritten(key: string, w1: string, w2: string)
    requires '=' !in key && '=' !in w1 && '=' !in w2 && '+' !in w1
    ensures ValueOfAsWritten(key + "=" + (w1 + "+" + w2)) == Found(w1 + " " + w2)
  {
    var value := w1 + "+" + w2;
    EntrySplit(key, value);
    assert value[|w1|] == '+' && value[..|w1|] == w1;
    IndexOfAt(value, '+', |w1|);
    assert value[|w1| := ' '] == w1 + " " + w2;
  }

  /**
   * Read with every `+` a space, the form's encoding of a filter free of
   * `+` and `=` (every space sent as `+`) gives the filter back.
   */
  lemma FormRoundTrip(key: string, filter: string)
    requires '=' !in key && '=' !in filter && '+' !in filter
    ensures ValueOf(key + "=" + ReplaceAll(filter, ' ', '+')) == Found(filter)
  {
    var sent := ReplaceAll(filter, ' ', '+');
    assert '=' !in sent by {
      assert forall i :: 0 <= i < |sent| ==> sent[i] != '=';
    }
    EntrySplit(key, sent);
    var back := ReplaceAll(sent, '+', ' ');
    assert back == filter by {
      assert forall i :: 0 <= i < |filter| ==> filter[i] != '+';
    }
  }

  /** As written, `param(key)` on a two-word value sent by the form turns only the first `+` into a space. */
  lemma ParamValueAsWritten(key: string, w1: string, w2: string)
    requires '=' !in key && '&' !in key && '=' !in w1 && '&' !in w1 && '=' !in w2 && '&' !in w2 && '+' !in w1
    ensures LookupIn(Split(Query("?" + key + "=" + (w1 + "+" + w2)), '&'), key, AsWritten) == Found(w1 + " " + w2)
  {
    var value := w1 + "+" + w2;
    assert '&' !in value;
    SingleEntry(key, value, AsWritten);
    FormValueAsWritten(key, w1, w2);
  }

  /** The search string `?filter=a+b+c`, which the form sends for the filter `a b c`, gives `param('filter')` as `a b+c`. */
  lemma ParamFilterAsWritten()
    ensures LookupIn(Split(Query("?filter=a+b+c"), '&'), "filter", AsWritten) == Found("a b+c")
  {
    FilterWords();
    ParamValueAsWritten("filter", "a", "b+c");
  }

  lemma FilterWords()
    ensures '=' !in "filter" && '&' !in "filter" && '=' !in "a" && '&' !in "a" && '+' !in "a"
    ensures '=' !in "b+c" && '&' !in "b+c"
    ensures "?" + "filter" + "=" + ("a" + "+" + "b+c") == "?filter=a+b+c"
    ensures "a" + " " + "b+c" == "a b+c"
  {
  }

  /**
   * Read with every `+` a space, `param(key)` on the search string the form
   * sends gives the filter back as it was typed.
   */
  lemma ParamRoundTrip(key: string, filter: string)
    requires '=' !in key && '&' !in key
    requires '=' !in filter && '+' !in filter && '&' !in filter
    ensures LookupIn(Split(Query("?" + key + "=" + ReplaceAll(filter, ' ', '+')), '&'), key, EveryPlus) == Found(filter)
  {
    var sent := ReplaceAll(filter, ' ', '+');
    assert '&' !in sent by {
      assert forall i :: 0 <= i < |sent| ==> sent[i] != '&';
    }
    SingleEntry(key, sent, EveryPlus);
    FormRoundTrip(key, filter);
  }

  /** A value stops at the next `=`. */
  lemma ValueStopsAtSecondEquals(key: string, v: string, rest: string, d: Decoding)
    requires '=' !in key && '=' !in v && '+' !in v
    ensures Decode(key + "=" + v + "=" + rest, d) == Found(v)
  {
    var tail := v + "=" + rest;
    assert key + "=" + v + "=" + rest == key + "=" + tail;
    EntryPrefix(key, tail);
    EntryPrefix(v, rest);
    ReplaceAbsent(v, '+', ' ');
  }

  // ----- The name filter in `describe` -----

  /** `toLowerCase` on ASCII letters; every other character is kept. */
  function LowerChar(c: char): (r: char) {
    if 'A' <= c <= 'Z' then (c as int + 32) as char else c
  }

  function Lower(s: string): (r: string)
    ensures |r| == |s| && forall i :: 0 <= i < |s| ==> r[i] == LowerChar(s[i])
  {
    if s == [] then [] else [LowerChar(s[0])] + Lower(s[1..])
  }

  lemma LowerIdempotent(s: string)
    ensures Lower(Lower(s)) == Lower(s)
  {
    assert forall i :: 0 <= i < |s| ==> LowerChar(LowerChar(s[i])) == LowerChar(s[i]);
  }

  /** `sub` occurs in `s` at position `i`. */
  predicate OccursAt(sub: string, s: string, i: nat) {
    i + |sub| <= |s| && s[i..i + |sub|] == sub
  }

  /** `s.indexOf(sub, i)`: the first position from `i` on where `sub` occurs, or -1. */
  function IndexOfFrom(s: string, sub: string, i: nat): (r: int)
    requires i <= |s|
    ensures r == -1 <==> forall j :: i <= j <= |s| ==> !OccursAt(sub, s, j)
    ensures r != -1 ==> i <= r && OccursAt(sub, s, r) && forall j :: i <= j < r ==> !OccursAt(sub, s, j)
    decreases |s| - i
  {
    if OccursAt(sub, s, i) then i
    else if i == |s| then -1
    else IndexOfFrom(s, sub, i + 1)
  }

  /**
   * `filter && name.toLowerCase().indexOf(filter.toLowerCase()) == -1`: with
   * a non-empty filter, a name is skipped when the filter does not occur in
   * it, ignoring the case of ASCII letters.
   */
  predicate Skipped(name: string, filter: Option<string>) {
    filter.Some? && filter.value != "" && IndexOfFrom(Lower(name), Lower(filter.value), 0) == -1
  }

  /** No filter, or an empty one, skips nothing. */
  lemma NoFilterKeepsAll(name: string)
    ensures !Skipped(name, None) && !Skipped(name, Some(""))
  {
  }

  lemma SkippedIsNotFound(name: string, filter: string)
    requires filter != ""
    ensures Skipped(name, Some(filter)) <==> IndexOfFrom(Lower(name), Lower(filter), 0) == -1
  {
  }

  /** A non-empty filter skips a name exactly when it occurs nowhere in the name, case aside. */
  lemma SkippedIff(name: string, filter: string)
    requires filter != ""
    ensures Skipped(name, Some(filter)) <==>
              forall j :: 0 <= j <= |name| ==> !OccursAt(Lower(filter), Lower(name), j)
  {
    SkippedIsNotFound(name, filter);
    var ln, lf := Lower(name), Lower(filter);
    assert IndexOfFrom(ln, lf, 0) == -1 <==> forall j :: 0 <= j <= |ln| ==> !OccursAt(lf, ln, j);
  }

  /** The case of the name and of the filter does not matter. */
  lemma SkippedIgnoresCase(name: string, filter: string)
    ensures Skipped(name, Some(filter)) <==> Skipped(Lower(name), Some(Lower(filter)))
  {
    LowerIdempotent(name);
    LowerIdempotent(filter);
    assert |Lower(filter)| == |filter|;
    assert (filter == "") <==> (Lower(filter) == "");
  }

  // ----- Per-depth totals -----

  /** A result as the browser runner reads it. */
  datatype Node = Node(name: string, fullName: string, passed: Option<bool>, error: Option<string>, children: seq<Node>)

  /** The number of nodes at depth `d` of the forest `f` (the roots are at depth 0). */
  function LevelCount(f: seq<Node>, d: nat): (r: nat)
    decreases f
  {
    if f == [] then 0 else LevelCount(f[..|f| - 1], d) + NodeCount(f[|f| - 1], d)
  }

  function NodeCount(n: Node, d: nat): (r: nat)
    decreases n
  {
    if d == 0 then 1 else LevelCount(n.children, d - 1)
  }

  /** The number of nodes at depth `d` whose `passed` is truthy. */
  function LevelPassed(f: seq<Node>, d: nat): (r: nat)
    decreases f
  {
    if f == [] then 0 else LevelPassed(f[..|f| - 1], d) + NodePassed(f[|f| - 1], d)
  }

  function NodePassed(n: Node, d: nat): (r: nat)
    decreases n
  {
    if d == 0 then (if n.passed == Some(true) then 1 else 0) else LevelPassed(n.children, d - 1)
  }

  /** `results.filter(function(result) { return result.passed; }).length`. */
  function CountPassing(results: seq<Node>): (k: nat)
    ensures k <= |results|
  {
    if results == [] then 0
    else CountPassing(results[..|results| - 1]) + (if results[|results| - 1].passed == Some(true) then 1 else 0)
  }

  lemma {:induction false} LevelZero(f: seq<Node>)
    ensures LevelCount(f, 0) == |f| && LevelPassed(f, 0) == CountPassing(f)
  {
    if f != [] {
      LevelZero(f[..|f| - 1]);
    }
  }

  /** At every depth, no more nodes passed than there are. */
  lemma {:induction false} PassedAtMostCount(f: seq<Node>, d: nat)
    ensures LevelPassed(f, d) <= LevelCount(f, d)
    decreases f
  {
    if f != [] {
      PassedAtMostCount(f[..|f| - 1], d);
      var n := f[|f| - 1];
      if d > 0 {
        PassedAtMostCount(n.children, d - 1);
      }
    }
  }

  /** `totalCounts[i] || 0`: a position the array does not reach reads as 0. */
  function Get(a: seq<nat>, i: nat): (r: nat) {
    if i < |a| then a[i] else 0
  }

  /** `a[i] = v`, the array growing as far as `i` if need be (positions it skips read as 0). */
  function Put(a: seq<nat>, i: nat, v: nat): (r: seq<nat>)
    ensures forall j :: Get(r, j) == if j == i then v else Get(a, j)
  {
    if i < |a| then a[i := v] else a + seq(i - |a|, _ => 0) + [v]
  }

  /** What a call at `level` adds at depth `l` of the totals. */
  function Tally(f: seq<Node>, level: nat, l: nat): (r: nat) {
    if l < level then 0 else LevelCount(f, l - level)
  }

  function TallyPassed(f: seq<Node>, level: nat, l: nat): (r: nat) {
    if l < level then 0 else LevelPassed(f, l - level)
  }

  /** What the calls on the children of the first `i` nodes of `f` add at depth `l`. */
  function KidsTally(f: seq<Node>, level: nat, l: nat, i: nat): (r: nat)
    requires i <= |f|
  {
    if i == 0 then 0 else KidsTally(f, level, l, i - 1) + Tally(f[i - 1].children, level + 1, l)
  }

  function KidsTallyPassed(f: seq<Node>, level: nat, l: nat, i: nat): (r: nat)
    requires i <= |f|
  {
    if i == 0 then 0 else KidsTallyPassed(f, level, l, i - 1) + TallyPassed(f[i - 1].children, level + 1, l)
  }

  /** Below the first depth, the nodes of a prefix are the nodes below its members. */
  lemma {:induction false} KidsTallyIsLevel(f: seq<Node>, level: nat, l: nat, i: nat)
    requires i <= |f| && l > level
    ensures LevelCount(f[..i], l - level) == KidsTally(f, level, l, i)
    ensures LevelPassed(f[..i], l - level) == KidsTallyPassed(f, level, l, i)
  {
    if i > 0 {
      KidsTallyIsLevel(f, level, l, i - 1);
      assert f[..i][..i - 1] == f[..i - 1];
    }
  }

  lemma {:induction false} KidsTallyAbove(f: seq<Node>, level: nat, l: nat, i: nat)
    requires i <= |f| && l <= level
    ensures KidsTally(f, level, l, i) == 0 && KidsTallyPassed(f, level, l, i) == 0
  {
    if i > 0 {
      KidsTallyAbove(f, level, l, i - 1);
    }
  }

  /** A call's share at depth `l`: its own list at `level`, the calls on the children below. */
  lemma TallySplit(f: seq<Node>, level: nat, l: nat)
    ensures Tally(f, level, l) == (if l == level then |f| else 0) + KidsTally(f, level, l, |f|)
    ensures TallyPassed(f, level, l) == (if l == level then CountPassing(f) else 0) + KidsTallyPassed(f, level, l, |f|)
  {
    if l > level {
      KidsTallyIsLevel(f, level, l, |f|);
      assert f[..|f|] == f;
    } else {
      KidsTallyAbove(f, level, l, |f|);
      LevelZero(f);
    }
  }

  /** The running totals, one entry per depth: `totalCounts` and `totalPasses`. */
  class Totals {
    var counts: seq<nat>
    var passes: seq<nat>

    /** At every depth, no more passes than results. */
    predicate Valid()
      reads this
    {
      forall l :: 0 <= l < |passes| ==> passes[l] <= Get(counts, l)
    }

    constructor ()
      ensures counts == [] && passes == [] && Valid()
    {
      counts := [];
      passes := [];
    }

    /**
     * `calculateTotals(results, level)`: every node of the forest, and every
     * one that passed, is counted at its own depth, shifted by `level`.
     */
    method CalculateTotals(results: seq<Node>, level: nat)
      requires Valid()
      modifies this
      ensures Valid()
      ensures forall l :: Get(counts, l) == Get(old(counts), l) + Tally(results, level, l)
      ensures forall l :: Get(passes, l) == Get(old(passes), l) + TallyPassed(results, level, l)
      decreases results
    {
      if |results| == 0 {
        return;
      }
      LevelZero(results);
      var currentTotalCount := Get(counts, level);
      counts := Put(counts, level, currentTotalCount + |results|);
      var currentPassCount := Get(passes, level);
      passes := Put(passes, level, currentPassCount + CountPassing(results));
      ghost var c0, p0 := counts, passes;
      for i := 0 to |results|
        invariant Valid()
        invariant forall l :: Get(counts, l) == Get(c0, l) + KidsTally(results, level, l, i)
        invariant forall l :: Get(passes, l) == Get(p0, l) + KidsTallyPassed(results, level, l, i)
      {
        CalculateTotals(results[i].children, level + 1);
      }
      forall l
        ensures Tally(results, level, l) == (if l == level then |results| else 0) + KidsTally(results, level, l, |results|)
        ensures TallyPassed(results, level, l) == (if l == level then CountPassing(results) else 0) + KidsTallyPassed(results, level, l, |results|)
      {
        TallySplit(results, level, l);
      }
    }

    /** `updateTotals(context)` without the page: the totals of one more top-level result. */
    method UpdateTotals(context: Node)
      requires Valid()
      modifies this
      ensures Valid()
      ensures forall l :: Get(counts, l) == Get(old(counts), l) + LevelCount([context], l)
      ensures forall l :: Get(passes, l) == Get(old(passes), l) + LevelPassed([context], l)
    {
      CalculateTotals([context], 0);
    }
  }

  // ----- The fixed-width total -----

  function DigitChar(d: nat): (r: char)
    requires d < 10
  {
    ('0' as int + d) as char
  }

  /** The decimal numeral of `n`, as `'' + n` writes it. */
  function Digits(n: nat): (s: string)
    ensures |s| >= 1
  {
    if n < 10 then [DigitChar(n)] else Digits(n / 10) + [DigitChar(n % 10)]
  }

  /** What a character of a right-aligned column stands for: a digit its value, a blank 0. */
  function CharValue(c: char): (r: nat) {
    if '0' <= c <= '9' then c as int - '0' as int else 0
  }

  /** The number a column of digits and blanks reads as. */
  function Value(s: string): (r: nat) {
    if s == [] then 0 else Value(s[..|s| - 1]) * 10 + CharValue(s[|s| - 1])
  }

  function Pow10(k: nat): (p: nat)
    ensures p >= 1
  {
    if k == 0 then 1 else 10 * Pow10(k - 1)
  }

  function Blanks(k: nat): (r: string) {
    seq(k, _ => ' ')
  }

  /** A numeral reads back as its number. */
  lemma {:induction false} DigitsValue(n: nat)
    ensures Value(Digits(n)) == n
    decreases n
  {
    if n >= 10 {
      DigitsValue(n / 10);
      var s := Digits(n);
      assert s[..|s| - 1] == Digits(n / 10);
    }
  }

  /** A number below `10^k` has at most `k` digits. */
  lemma {:induction false} DigitsLength(n: nat, k: nat)
    requires k >= 1 && n < Pow10(k)
    ensures |Digits(n)| <= k
    decreases n
  {
    if n >= 10 {
      assert k >= 2;
      assert n / 10 < Pow10(k - 1);
      DigitsLength(n / 10, k - 1);
    }
  }

  lemma Regroup(vs: nat, vi: nat, h: nat, p: nat, t: nat, d: nat, vt: nat, pk: nat)
    requires vs == vi * 10 + d && vi == h * p + t && vt == t * 10 + d && pk == 10 * p
    requires t < p && d < 10
    ensures vs == h * pk + vt && vt < pk
  {
  }

  /** A column of `|b|` characters reads below `10^|b|`. */
  lemma {:induction false} ValueBound(b: string)
    ensures Value(b) < Pow10(|b|)
  {
    if b != [] {
      var init := b[..|b| - 1];
      ValueBound(init);
      Regroup(Value(b), Value(init), 0, Pow10(|init|), Value(init), CharValue(b[|b| - 1]), Value(b), Pow10(|b|));
    }
  }

  /** Columns side by side: the left one counts in units of `10^|b|`. */
  lemma {:induction false} ValueAppend(a: string, b: string)
    ensures Value(a + b) == Value(a) * Pow10(|b|) + Value(b)
  {
    if b == [] {
      assert a + b == a;
    } else {
      var init, last := b[..|b| - 1], b[|b| - 1];
      ValueAppend(a, init);
      ValueBound(init);
      assert a + b == (a + init) + [last];
      ValueSnoc(a + init, last);
      ValueSnoc(init, last);
      assert init + [last] == b;
      Regroup(Value(a + b), Value(a + init), Value(a), Pow10(|init|), Value(init), CharValue(last), Value(b), Pow10(|b|));
    }
  }

  lemma ValueSnoc(s: string, c: char)
    ensures Value(s + [c]) == Value(s) * 10 + CharValue(c)
  {
    assert (s + [c])[..|s|] == s;
  }

  /** A blank in front changes nothing. */
  lemma {:induction false} BlankPrefix(t: string)
    ensures Value(" " + t) == Value(t)
  {
    if t != [] {
      BlankPrefix(t[..|t| - 1]);
      assert (" " + t)[..|t|] == " " + t[..|t| - 1];
    }
  }

  /** `('      ' + totalCount).slice(-5)`: the last five characters of the numeral behind six blanks. */
  function PaddedTotal(n: nat): (r: string)
    ensures |r| == 5
  {
    var s := Blanks(6) + Digits(n);
    s[|s| - 5..]
  }

  /** The text put in a totals item: a blank, then the five-character column. */
  function FormatTotal(n: nat): (r: string)
    ensures |r| == 6
  {
    " " + PaddedTotal(n)
  }

  /** Up to five digits, the numeral is right-aligned behind blanks. */
  lemma FormatTotalAligned(n: nat)
    requires n < 100000
    ensures |Digits(n)| <= 5 && PaddedTotal(n) == Blanks(5 - |Digits(n)|) + Digits(n)
  {
    assert Pow10(5) == 100000;
    DigitsLength(n, 5);
    var d := Digits(n);
    var s := Blanks(6) + d;
    assert s[|s| - 5..] == Blanks(6)[1 + |d|..] + d;
  }

  /** What is shown reads as the total modulo 100000: a sixth digit and beyond are cut off. */
  lemma FormatTotalValue(n: nat)
    ensures Value(FormatTotal(n)) == n % 100000
  {
    var s := Blanks(6) + Digits(n);
    var head, shown := s[..|s| - 5], PaddedTotal(n);
    assert s == head + shown;
    ValueAppend(head, shown);
    ValueBound(shown);
    assert Pow10(5) == 100000;
    BlankPrefix(shown);
    ValueBehindBlanks(6, Digits(n));
    DigitsValue(n);
    Remainder(n, Value(head), Value(shown));
  }

  lemma Remainder(n: nat, h: nat, v: nat)
    requires n == h * 100000 + v && v < 100000
    ensures v == n % 100000
  {
  }

  lemma {:induction false} ValueBehindBlanks(k: nat, t: string)
    ensures Value(Blanks(k) + t) == Value(t)
  {
    if k > 0 {
      ValueBehindBlanks(k - 1, t);
      assert Blanks(k) == [' '] + Blanks(k - 1);
      assert Blanks(k) + t == " " + (Blanks(k - 1) + t);
      BlankPrefix(Blanks(k - 1) + t);
    } else {
      assert Blanks(0) + t == t;
    }
  }

  // ----- The CSS class and the caption of a result -----

  function StatusClass(passed: Option<bool>): (r: string) {
    if passed == Some(true) then "is-passed"
    else if passed == Some(false) then "is-failed"
    else "is-not-run"
  }

  /** `getCssClass(context)`, the collapsed flag read from `storage`. */
  function CssClass(node: Node, storage: map<string, bool>): (r: string) {
    StatusClass(node.passed)
      + (if |node.children| > 0 then " basil-parent" else " basil-leaf")
      + (if IsCollapsed(storage, node.fullName) then " is-collapsed" else "")
  }

  /** The status names are one word each and tell the three outcomes apart. */
  lemma StatusWords(passed: Option<bool>)
    ensures var w := StatusClass(passed);
            && ' ' !in w
            && (w == "is-passed" <==> passed == Some(true))
            && (w == "is-failed" <==> passed == Some(false))
            && (w == "is-not-run" <==> passed.None?)
  {
    assert "is-passed"[3] == 'p' && "is-failed"[3] == 'f' && "is-not-run"[3] == 'n';
    match passed {
      case Some(b) =>
      case None =>
    }
  }

  lemma SplitTwo(a: string, b: string)
    requires ' ' !in a && ' ' !in b
    ensures Split(a + " " + b, ' ') == [a, b]
  {
    SplitPrefix(a, ' ', b);
    SplitNone(b, ' ');
  }

  lemma SplitThree(a: string, b: string, c: string)
    requires ' ' !in a && ' ' !in b && ' ' !in c
    ensures Split(a + " " + b + " " + c, ' ') == [a, b, c]
  {
    assert a + " " + b + " " + c == a + [' '] + (b + " " + c);
    SplitPrefix(a, ' ', b + " " + c);
    SplitTwo(b, c);
  }

  /** The class names `getCssClass` puts together, in order. */
  function ClassWords(node: Node, storage: map<string, bool>): (r: seq<string>) {
    [StatusClass(node.passed), if |node.children| > 0 then "basil-parent" else "basil-leaf"]
      + (if IsCollapsed(storage, node.fullName) then ["is-collapsed"] else [])
  }

  /** The class string built word by word, each word after a blank, splits back into the words. */
  lemma ClassSplit(status: string, shape: string, last: string, collapsed: bool)
    requires ' ' !in status && ' ' !in shape && ' ' !in last
    ensures Split(status + (" " + shape) + (if collapsed then " " + last else ""), ' ')
            == [status, shape] + (if collapsed then [last] else [])
  {
    if collapsed {
      assert status + (" " + shape) + (" " + last) == status + " " + shape + " " + last;
      SplitThree(status, shape, last);
    } else {
      assert status + (" " + shape) + "" == status + " " + shape;
      SplitTwo(status, shape);
    }
  }

  lemma ClassNames()
    ensures ' ' !in "basil-parent" && ' ' !in "basil-leaf" && ' ' !in "is-collapsed"
    ensures " basil-parent" == " " + "basil-parent" && " basil-leaf" == " " + "basil-leaf"
    ensures " is-collapsed" == " " + "is-collapsed"
    ensures "basil-parent" != "basil-leaf"
  {
    assert "basil-parent"[6] == 'p' && "basil-leaf"[6] == 'l';
  }

  lemma CssClassSplits(node: Node, storage: map<string, bool>)
    ensures Split(CssClass(node, storage), ' ') == ClassWords(node, storage)
  {
    StatusWords(node.passed);
    ClassNames();
    var shape := if |node.children| > 0 then "basil-parent" else "basil-leaf";
    ClassSplit(StatusClass(node.passed), shape, "is-collapsed", IsCollapsed(storage, node.fullName));
  }

  /** The class names of `getCssClass`, as the browser reads the space-separated list. */
  lemma CssClassWords(node: Node, storage: map<string, bool>)
    ensures var words := Split(CssClass(node, storage), ' ');
            && (|words| == 2 || |words| == 3)
            && (words[0] == "is-passed" <==> node.passed == Some(true))
            && (words[0] == "is-failed" <==> node.passed == Some(false))
            && (words[0] == "is-not-run" <==> node.passed.None?)
            && (words[1] == "basil-parent" <==> |node.children| > 0)
            && (words[1] == "basil-leaf" <==> |node.children| == 0)
            && (|words| == 3 <==> IsCollapsed(storage, node.fullName))
            && (|words| == 3 ==> words[2] == "is-collapsed")
  {
    CssClassSplits(node, storage);
    StatusWords(node.passed);
    ClassNames();
  }

  /** `getCaption(context)`: the name, a blank, and the error in parentheses when there is one. */
  function Caption(name: string, error: Option<string>): (c: string)
    ensures |c| > |name| && c[..|name| + 1] == name + " "
    ensures error.None? ==> |c| == |name| + 1
    ensures error.Some? ==> |c| == |name| + |error.value| + 3 && c[|name| + 1] == '(' && c[|c| - 1] == ')'
  {
    var errorString := if error.Some? then "(" + error.value + ")" else "";
    name + " " + errorString
  }

  /** The error text can be read back from between the parentheses. */
  lemma CaptionError(name: string, e: string)
    ensures var c := Caption(name, Some(e)); c[|name| + 2..|c| - 1] == e
  {
    var c := Caption(name, Some(e));
    assert c == name + " " + "(" + e + ")";
  }

  // ----- The collapsed flag of a result -----

  /** The storage key of a result's flag. */
  function CollapseKey(fullName: string): (r: string) {
    "basil-collapsed-" + fullName
  }

  /** Different results have different keys. */
  lemma CollapseKeyInjective(f: string, g: string)
    ensures CollapseKey(f) == CollapseKey(g) ==> f == g
  {
    if CollapseKey(f) == CollapseKey(g) {
      var p := "basil-collapsed-";
      assert f == CollapseKey(f)[|p|..];
      assert g == CollapseKey(g)[|p|..];
    }
  }

  /**
   * `isCollapsed(context)`: `!!localStorage[key]`. Storage is a map from key
   * to whether the stored value is truthy.
   */
  predicate IsCollapsed(storage: map<string, bool>, fullName: string) {
    var key := CollapseKey(fullName);
    key in storage && storage[key]
  }

  /** `toggleCollapsed(context)`: a truthy flag is deleted, anything else becomes `true`. */
  function Toggled(storage: map<string, bool>, fullName: string): (r: map<string, bool>) {
    var key := CollapseKey(fullName);
    if key in storage && storage[key] then storage - {key} else storage[key := true]
  }

  /** Toggling flips the flag of that result. */
  lemma ToggleFlips(storage: map<string, bool>, fullName: string)
    ensures IsCollapsed(Toggled(storage, fullName), fullName) <==> !IsCollapsed(storage, fullName)
  {
  }

  /** Toggling touches no other key, hence no other result's flag. */
  lemma ToggleKeepsOthers(storage: map<string, bool>, fullName: string, other: string)
    requires other != fullName
    ensures var t := Toggled(storage, fullName);
            && IsCollapsed(t, other) == IsCollapsed(storage, other)
            && forall k :: k != CollapseKey(fullName) ==> (k in t <==> k in storage) && (k in t ==> t[k] == storage[k])
  {
    CollapseKeyInjective(fullName, other);
  }

  /**
   * Toggling twice restores the flag, and restores the storage itself unless
   * the key held a falsy value to begin with.
   */
  lemma ToggleTwice(storage: map<string, bool>, fullName: string)
    ensures var t := Toggled(Toggled(storage, fullName), fullName);
            && IsCollapsed(t, fullName) == IsCollapsed(storage, fullName)
            && (t == storage <==> CollapseKey(fullName) !in storage || storage[CollapseKey(fullName)])
  {
    var key := CollapseKey(fullName);
    var t := Toggled(Toggled(storage, fullName), fullName);
    if key in storage && storage[key] {
      assert t == storage;
    } else if key in storage {
      assert key !in t;
    } else {
      assert t == storage;
    }
  }

  /** The page's `localStorage`, as far as the collapsed flags go. */
  class CollapseStore {
    var storage: map<string, bool>

    constructor (initial: map<string, bool>)
      ensures storage == initial
    {
      storage := initial;
    }

    predicate Collapsed(fullName: string)
      reads this
    {
      IsCollapsed(storage, fullName)
    }

    /** `toggleCollapsed(context)` on the stored map. */
    method ToggleCollapsed(fullName: string)
      modifies this
      ensures storage == Toggled(old(storage), fullName)
      ensures Collapsed(fullName) <==> !old(Collapsed(fullName))
    {
      var key := CollapseKey(fullName);
      if key in storage && storage[key] {
        storage := storage - {key};
      } else {
        storage := storage[key := true];
      }
    }
  }
}
