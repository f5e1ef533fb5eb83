/** The Python string methods that several components rely on. */
module Text {

  function IndexOf(s: string, c: char): (i: nat)
    ensures i <= |s| && (i < |s| ==> s[i] == c)
    ensures forall j: nat :: j < i ==> s[j] != c
  {
    if s == "" || s[0] == c then 0 else 1 + IndexOf(s[1..], c)
  }

  lemma FirstIndexIsUnique(s: string, c: char, i: nat)
    requires i <= |s| && (i < |s| ==> s[i] == c)
    requires forall j: nat :: j < i ==> s[j] != c
    ensures IndexOf(s, c) == i
  {
  }

  lemma NoIndex(s: string, c: char)
    requires c !in s
    ensures IndexOf(s, c) == |s|
  {
    assert forall j: nat :: j < |s| ==> s[j] in s;
    FirstIndexIsUnique(s, c, |s|);
  }

  /** s.split(c) */
  function Split(s: string, c: char): (parts: seq<string>)
    ensures parts != []
    ensures forall p :: p in parts ==> c !in p
    decreases |s|
  {
    var i := IndexOf(s, c);
    if i == |s| then assert s[..i] == s; [s] else [s[..i]] + Split(s[i + 1..], c)
  }

  lemma SplitAtSeparator(a: string, c: char, b: string)
    requires c !in a
    ensures Split(a + [c] + b, c) == [a] + Split(b, c)
    ensures Split(a, c) == [a]
  {
    var s := a + [c] + b;
    assert forall j: nat :: j < |a| ==> s[j] == a[j];
    FirstIndexIsUnique(s, c, |a|);
    assert s[..|a|] == a && s[|a| + 1..] == b;
    FirstIndexIsUnique(a, c, |a|);
  }

  /** s.replace(old, new): leftmost matches, none overlapping. */
  function Replace(s: string, old_: string, new_: string): string
    requires old_ != ""
    decreases |s|
  {
    if |s| < |old_| then s
    else if old_ <= s then new_ + Replace(s[|old_|..], old_, new_)
    else [s[0]] + Replace(s[1..], old_, new_)
  }

  /** A position where `old` does not match is copied. */
  lemma ReplaceSkips(s: string, old_: string, new_: string)
    requires old_ != "" && s != "" && !(old_ <= s)
    ensures Replace(s, old_, new_) == [s[0]] + Replace(s[1..], old_, new_)
  {
    if |s| < |old_| {
      assert s == [s[0]] + s[1..];
    }
  }

  /** A match is replaced and the scan goes on after it. */
  lemma ReplaceHits(rest: string, old_: string, new_: string)
    requires old_ != ""
    ensures Replace(old_ + rest, old_, new_) == new_ + Replace(rest, old_, new_)
  {
    assert (old_ + rest)[|old_|..] == rest;
  }
}
