/** Splitting, joining and replacing in strings. */
module Strings {
  import opened Wrappers

  function Replace(s: string, c: char, text: string): string {
    if s == "" then "" else (if s[0] == c then text else [s[0]]) + Replace(s[1..], c, text)
  }

  function Split(s: string, c: char): (parts: seq<string>)
    ensures parts != []
  {
    if s == "" then [""]
    else
      var rest := Split(s[1..], c);
      if s[0] == c then [""] + rest else [[s[0]] + rest[0]] + rest[1..]
  }

  function SplitOnce(s: string, c: char): Option<(string, string)> {
    if s == "" then None
    else if s[0] == c then Some(("", s[1..]))
    else
      match SplitOnce(s[1..], c)
      case None => None
      case Some((before, after)) => Some(([s[0]] + before, after))
  }

  /** The parts with the character between each two of them. */
  function Between(parts: seq<string>, c: char): string {
    if parts == [] then "" else if |parts| == 1 then parts[0] else parts[0] + [c] + Between(parts[1..], c)
  }

  function Join(parts: seq<string>): string { Between(parts, '/') }

  function StripPrefix(s: string, prefix: string): Option<string> {
    if prefix <= s then Some(s[|prefix|..]) else None
  }

  function StripSuffix(s: string, suffix: string): Option<string> {
    if |suffix| <= |s| && s[|s| - |suffix|..] == suffix then Some(s[..|s| - |suffix|]) else None
  }

  lemma {:induction false} ReplaceAppend(a: string, b: string, c: char, text: string)
    ensures Replace(a + b, c, text) == Replace(a, c, text) + Replace(b, c, text)
  {
    if a == "" {
      assert a + b == b;
    } else {
      assert (a + b)[1..] == a[1..] + b;
      ReplaceAppend(a[1..], b, c, text);
    }
  }

  lemma {:induction false} ReplaceAbsent(s: string, c: char, text: string)
    requires c !in s
    ensures Replace(s, c, text) == s
  {
    if s != "" {
      ReplaceAbsent(s[1..], c, text);
    }
  }

  /** Replacing dots and then slashes, one character at a time. */
  lemma {:induction false} ReplaceBoth(s: string, dot: string, slash: string)
    requires s != "" && '/' !in dot
    ensures var rest := Replace(Replace(s[1..], '.', dot), '/', slash);
            Replace(Replace(s, '.', dot), '/', slash) ==
            (if s[0] == '.' then dot else if s[0] == '/' then slash else [s[0]]) + rest
  {
    var head := if s[0] == '.' then dot else [s[0]];
    ReplaceAppend(head, Replace(s[1..], '.', dot), '/', slash);
    if s[0] == '/' {
      assert head == "/" && head[1..] == "";
      assert Replace(head, '/', slash) == slash + "";
    } else {
      ReplaceAbsent(head, '/', slash);
    }
  }

  lemma {:induction false} JoinAppend(parts: seq<string>, last: string)
    requires parts != []
    ensures Join(parts + [last]) == Join(parts) + "/" + last
  {
    var all := parts + [last];
    assert all[0] == parts[0];
    if |parts| == 1 {
      assert all[1..] == [last];
      assert Between([last], '/') == last;
    } else {
      JoinAppend(parts[1..], last);
      assert all[1..] == parts[1..] + [last];
    }
  }

  /** Parts without a slash can be read back from their join. */
  lemma SplitJoin(parts: seq<string>)
    requires parts != [] && forall i :: 0 <= i < |parts| ==> '/' !in parts[i]
    ensures Split(Join(parts), '/') == parts
  {
    SplitExactly(Join(parts), '/', parts);
  }

  /** Splitting is the one way of taking a string apart at every occurrence of the character. */
  lemma {:induction false} SplitExactly(s: string, c: char, parts: seq<string>)
    ensures parts == Split(s, c) <==>
            parts != [] && Between(parts, c) == s && forall i :: 0 <= i < |parts| ==> c !in parts[i]
  {
    SplitBetween(s, c);
    if parts != [] && Between(parts, c) == s && forall i :: 0 <= i < |parts| ==> c !in parts[i] {
      BetweenSplit(parts, c);
    }
  }

  lemma {:induction false} SplitBetween(s: string, c: char)
    ensures Between(Split(s, c), c) == s
    ensures forall i :: 0 <= i < |Split(s, c)| ==> c !in Split(s, c)[i]
  {
    if s != "" {
      SplitBetween(s[1..], c);
      var rest, all := Split(s[1..], c), Split(s, c);
      assert s == [s[0]] + s[1..];
      if s[0] == c {
        assert all[1..] == rest;
      } else {
        assert all[1..] == rest[1..] && all[0] == [s[0]] + rest[0];
        assert forall i :: 1 <= i < |all| ==> all[i] == rest[i];
      }
    }
  }

  lemma {:induction false} BetweenSplit(parts: seq<string>, c: char)
    requires parts != [] && forall i :: 0 <= i < |parts| ==> c !in parts[i]
    ensures Split(Between(parts, c), c) == parts
    decreases |parts|, |parts[0]|
  {
    var s, head := Between(parts, c), parts[0];
    if head == "" {
      if |parts| > 1 {
        BetweenSplit(parts[1..], c);
        assert s == [c] + Between(parts[1..], c);
        assert s[1..] == Between(parts[1..], c);
        assert parts == [""] + parts[1..];
      } else {
        assert parts == [""];
      }
    } else {
      var shorter := [head[1..]] + parts[1..];
      assert forall i :: 0 <= i < |shorter| ==> c !in shorter[i];
      BetweenSplit(shorter, c);
      assert shorter[1..] == parts[1..];
      assert head == [head[0]] + head[1..];
      assert s == [head[0]] + Between(shorter, c);
      assert s[1..] == Between(shorter, c);
      assert parts == [[head[0]] + shorter[0]] + shorter[1..];
    }
  }
}
