/** dba/dba.c: `php_dba_make_key` prints a (group, name) pair as one key, and
    `dba_key_split` parses a key. PHP strings may contain NUL; the C functions
    in between stop at the first one. */
module DbaKeys {
  import opened Options

  /** A key argument after conversion to strings: a scalar, or the elements of an array. */
  datatype Key = Scalar(s: string) | Elements(elements: seq<string>)

  /** The argument of `dba_key_split`. */
  datatype SplitArgument = Null | False | Text(s: string)

  datatype GroupName = GroupName(group: string, name: string)

  /** What a C string function sees of `s`. */
  function CString(s: string): string {
    if s == "" || s[0] == '\0' then "" else [s[0]] + CString(s[1..])
  }

  /** `strchr`: the first place of `c` before the first NUL. */
  function StrChr(s: string, c: char): (r: Option<nat>)
    requires c != '\0'
    ensures r.Some? ==> r.value < |s| && s[r.value] == c
  {
    if s == "" || s[0] == '\0' then None
    else if s[0] == c then Some(0)
    else match StrChr(s[1..], c) case None => None case Some(i) => Some(i + 1)
  }

  /** None stands for the error on an array without exactly two elements. */
  function MakeKey(key: Key): Option<string> {
    match key
    case Scalar(s) => Some(s)
    case Elements(es) =>
      if |es| != 2 then None
      else if es[0] == "" then Some(es[1])
      else Some("[" + CString(es[0]) + "]" + CString(es[1]))
  }

  function Split(key: string): GroupName {
    if key != "" && key[0] == '[' && StrChr(key, ']').Some? then
      var name := StrChr(key, ']').value;
      GroupName(key[1..name], key[name + 1..])
    else
      GroupName("", key)
  }

  /** None stands for FALSE. */
  function KeySplit(argument: SplitArgument): Option<GroupName> {
    match argument
    case Null => None
    case False => None
    case Text(s) => Some(Split(s))
  }

  lemma {:induction false} CStringIsPrefix(s: string)
    ensures CString(s) <= s && '\0' !in CString(s)
    ensures CString(s) == s <==> '\0' !in s
  {
    if s != "" && s[0] != '\0' {
      CStringIsPrefix(s[1..]);
      assert s == [s[0]] + s[1..];
    }
  }

  /** `strchr` finds the first occurrence, and only before the first NUL. */
  lemma {:induction false} StrChrFindsFirst(s: string, c: char)
    requires c != '\0'
    ensures StrChr(s, c).None? <==> c !in CString(s)
    ensures StrChr(s, c).Some? ==>
              var i := StrChr(s, c).value;
              i < |s| && s[i] == c && c !in s[..i] && '\0' !in s[..i]
  {
    if s != "" && s[0] != '\0' && s[0] != c {
      StrChrFindsFirst(s[1..], c);
      if StrChr(s, c).Some? {
        var i := StrChr(s[1..], c).value;
        assert s[..i + 1] == [s[0]] + s[1..][..i];
      }
    }
  }

  lemma {:induction false} StrChrAfter(prefix: string, c: char, rest: string)
    requires c != '\0' && c !in prefix && '\0' !in prefix
    ensures StrChr(prefix + [c] + rest, c) == Some(|prefix|)
  {
    if prefix == "" {
      assert prefix + [c] + rest == [c] + rest;
    } else {
      assert (prefix + [c] + rest)[1..] == prefix[1..] + [c] + rest;
      StrChrAfter(prefix[1..], c, rest);
    }
  }

  /** The pairs that keys can carry. */
  predicate Representable(group: string, name: string) {
    if group != "" then ']' !in group && '\0' !in group && '\0' !in name
    else !(name != "" && name[0] == '[' && ']' in CString(name))
  }

  /** A group without ']' is found again. */
  lemma SplitOfGrouped(g: string, n: string)
    requires ']' !in g && '\0' !in g
    ensures Split("[" + g + "]" + n) == GroupName(g, n)
  {
    var key := "[" + g + "]" + n;
    assert key == ("[" + g) + [']'] + n;
    StrChrAfter("[" + g, ']', n);
    assert key[1..|g| + 1] == g && key[|g| + 2..] == n;
  }

  /** A name alone is split when it looks like a grouped key. */
  lemma SplitOfName(name: string)
    ensures Split(name) == GroupName("", name) <==> Representable("", name)
  {
    StrChrFindsFirst(name, ']');
  }

  /** Splitting a made key gives the pair back exactly for the representable pairs. */
  lemma SplitOfMadeKey(group: string, name: string)
    ensures MakeKey(Elements([group, name])).Some?
    ensures KeySplit(Text(MakeKey(Elements([group, name])).value)) == Some(GroupName(group, name))
            <==> Representable(group, name)
  {
    if group == "" {
      SplitOfName(name);
    } else {
      CStringIsPrefix(group);
      CStringIsPrefix(name);
      if ']' in CString(group) {
        FirstBracketInside(group, name);
      } else {
        SplitOfGrouped(CString(group), CString(name));
      }
    }
  }

  lemma {:induction false} FirstBracketInside(group: string, name: string)
    requires ']' in CString(group)
    ensures var key := "[" + CString(group) + "]" + CString(name);
            Split(key).group != group
  {
    var g := CString(group);
    CStringIsPrefix(group);
    var key := "[" + g + "]" + CString(name);
    var i :| 0 <= i < |g| && g[i] == ']';
    StrChrFindsFirst(key, ']');
    assert key[i + 1] == ']';
    assert ']' in CString(key) by {
      PrefixOfCString(key, "[" + g);
    }
    var p := StrChr(key, ']').value;
    assert p <= i + 1;
    assert |Split(key).group| < |group|;
  }

  lemma {:induction false} PrefixOfCString(s: string, prefix: string)
    requires prefix <= s && '\0' !in prefix
    ensures prefix <= CString(s)
  {
    if prefix != "" {
      PrefixOfCString(s[1..], prefix[1..]);
    }
  }

  /** Keys that name a group. */
  predicate HasGroup(key: string) {
    key != "" && key[0] == '[' && ']' in CString(key)
  }

  lemma Reassembled(key: string, i: nat)
    requires 1 <= i < |key| && key[0] == '[' && key[i] == ']' && '\0' !in key[..i]
    ensures "[" + CString(key[1..i]) + "]" + CString(key[i + 1..]) == key <==> '\0' !in key
  {
    var group, name := key[1..i], key[i + 1..];
    assert key == key[..i] + [key[i]] + name;
    assert key == "[" + group + "]" + name;
    assert '\0' !in group by {
      assert key[..i] == "[" + group;
    }
    CStringIsPrefix(group);
    CStringIsPrefix(name);
    SuffixEquality("[" + group + "]", CString(name), name);
  }

  /** Making a key from a split one gives it back, except for an empty group
      written out, and for NULs in or behind a group. */
  lemma MakeOfSplitKey(key: string)
    ensures var pair := Split(key);
            MakeKey(Elements([pair.group, pair.name])) == Some(key)
            <==> (HasGroup(key) ==> !("[]" <= key) && '\0' !in key)
  {
    StrChrFindsFirst(key, ']');
    if HasGroup(key) {
      var i := StrChr(key, ']').value;
      assert key[1..i] == "" <==> "[]" <= key;
      Reassembled(key, i);
    }
  }

  lemma SuffixEquality(prefix: string, a: string, b: string)
    ensures prefix + a == prefix + b <==> a == b
  {
    if prefix + a == prefix + b {
      assert a == (prefix + a)[|prefix|..] == (prefix + b)[|prefix|..] == b;
    }
  }

  /** Different representable pairs have different keys. */
  lemma MakeKeyInjective(g: string, n: string, g': string, n': string)
    requires Representable(g, n) && Representable(g', n')
    requires MakeKey(Elements([g, n])) == MakeKey(Elements([g', n']))
    ensures g == g' && n == n'
  {
    SplitOfMadeKey(g, n);
    SplitOfMadeKey(g', n');
  }

  /** A name alone is its own key, given as a scalar or with an empty group; a pair is
      printed with the group in brackets. */
  lemma KeyOfPair(group: string, name: string)
    ensures MakeKey(Scalar(name)) == MakeKey(Elements(["", name])) == Some(name)
    ensures group != "" && '\0' !in group && '\0' !in name ==>
              MakeKey(Elements([group, name])) == Some("[" + group + "]" + name)
  {
    CStringIsPrefix(group);
    CStringIsPrefix(name);
  }

  /** Only an array without exactly two elements makes no key. */
  lemma KeyNeedsPair(key: Key)
    ensures MakeKey(key).None? <==> key.Elements? && |key.elements| != 2
  {
  }

  /** Null and FALSE are not split, and every string is. */
  lemma OnlyTextIsSplit(argument: SplitArgument)
    ensures KeySplit(argument).None? <==> argument in {Null, False}
  {
  }
}
