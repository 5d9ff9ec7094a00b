/** `ContentConverter.slugify`: the URL-friendly id of a heading. The text is
    stripped and lower-cased, every character that is not a word character,
    whitespace or `-` is dropped, spaces become hyphens and runs of hyphens
    collapse to one. Which characters `\w` accepts is a parameter `word`,
    fixed on the ASCII range (`IsAsciiWordClass`). */
module Slug {
  import opened Text

  /** `[A-Za-z0-9_]`, what `\w` accepts among the ASCII characters. */
  predicate IsAsciiWord(c: char)
  {
    IsAsciiLetter(c) || IsDigit(c) || c == '_'
  }

  /** A word class that agrees with Python's `\w` on ASCII. */
  ghost predicate IsAsciiWordClass(word: char -> bool)
  {
    forall c: char :: c < 128 as char ==> (word(c) <==> IsAsciiWord(c))
  }

  /** Characters the class `[\w\s-]` keeps. */
  predicate Allowed(word: char -> bool, c: char)
  {
    word(c) || IsSpace(c) || c == '-'
  }

  /** `re.sub(r'[^\w\s-]', '', s)`: every character outside the class is
      deleted, every other one kept, in order. */
  function Keep(s: string, word: char -> bool): (r: string)
    ensures |r| <= |s|
    ensures forall k :: 0 <= k < |r| ==> Allowed(word, r[k])
    ensures (forall k :: 0 <= k < |s| ==> Allowed(word, s[k])) ==> r == s
  {
    if s == [] then [] else (if Allowed(word, s[0]) then [s[0]] else []) + Keep(s[1..], word)
  }

  /** Deleting the characters outside the class keeps every other
      character as often as it occurs. */
  lemma {:induction false} KeepCounts(s: string, word: char -> bool)
    ensures forall c :: Allowed(word, c) ==> multiset(Keep(s, word))[c] == multiset(s)[c]
    ensures forall c :: !Allowed(word, c) ==> multiset(Keep(s, word))[c] == 0
    decreases |s|
  {
    if s != [] {
      KeepCounts(s[1..], word);
      assert s == [s[0]] + s[1..];
    }
  }

  /** Deleting distributes over concatenation. */
  lemma {:induction false} KeepConcat(a: string, b: string, word: char -> bool)
    ensures Keep(a + b, word) == Keep(a, word) + Keep(b, word)
    decreases |a|
  {
    if a != [] {
      var h: string := if Allowed(word, a[0]) then [a[0]] else [];
      KeepConcat(a[1..], b, word);
      assert (a + b)[0] == a[0];
      assert (a + b)[1..] == a[1..] + b;
      assert Keep(a + b, word) == h + Keep(a[1..] + b, word);
      assert Keep(a, word) == h + Keep(a[1..], word);
      AppendAssoc(h, Keep(a[1..], word), Keep(b, word));
    } else {
      assert a + b == b;
    }
  }

  /** `s.replace(' ', '-')`, character by character. */
  function SpacesToHyphens(s: string): (r: string)
    ensures |r| == |s|
    ensures forall k :: 0 <= k < |s| ==> r[k] == (if s[k] == ' ' then '-' else s[k])
  {
    if s == [] then [] else [if s[0] == ' ' then '-' else s[0]] + SpacesToHyphens(s[1..])
  }

  /** Rewriting around the first space. */
  lemma SpacesToHyphensAt(s: string, i: nat)
    requires i < |s| && s[i] == ' '
    requires forall k :: 0 <= k < i ==> s[k] != ' '
    ensures SpacesToHyphens(s) == s[..i] + "-" + SpacesToHyphens(s[i + 1..])
  {
    var p, t := s[..i], s[i + 1..];
    var u: string := [' '] + t;
    AroundIndex(s, i);
    SpacesToHyphensConcat(p, u);
    NoSpacesKept(p);
    LeadingSpace(t);
    AppendAssoc(p, "-", SpacesToHyphens(t));
  }

  lemma AroundIndex(s: string, i: nat)
    requires i < |s|
    ensures s == s[..i] + ([s[i]] + s[i + 1..])
  {
    assert s == s[..i] + s[i..];
    assert s[i..] == [s[i]] + s[i + 1..];
  }

  lemma LeadingSpace(t: string)
    ensures SpacesToHyphens([' '] + t) == "-" + SpacesToHyphens(t)
  {
    assert ([' '] + t)[1..] == t;
  }

  /** Text without spaces is left as it is. */
  lemma NoSpacesKept(x: string)
    requires forall k :: 0 <= k < |x| ==> x[k] != ' '
    ensures SpacesToHyphens(x) == x
  {
    assert forall k :: 0 <= k < |x| ==> SpacesToHyphens(x)[k] == x[k];
  }

  /** It is `str.replace` of the one-character literal. */
  lemma {:induction false} SpacesToHyphensIsReplace(s: string)
    ensures ReplaceAll(s, " ", "-") == SpacesToHyphens(s)
    decreases |s|
  {
    var f := Find(s, " ", 0);
    if f.None? {
      forall k | 0 <= k < |s| ensures s[k] != ' ' {
        assert !PrefixAt(s, k, " ");
      }
      assert SpacesToHyphens(s) == s;
    } else {
      var i := f.value;
      SpacesToHyphensIsReplace(s[i + 1..]);
      forall k | 0 <= k < i ensures s[k] != ' ' {
        assert !PrefixAt(s, k, " ");
      }
      assert s[i..i + 1] == " ";
      SpacesToHyphensAt(s, i);
    }
  }

  /** The text after the leading hyphens. */
  function DropHyphens(s: string): (r: string)
    ensures |r| <= |s| && r == s[|s| - |r|..]
    ensures r == [] || r[0] != '-'
    ensures forall k :: 0 <= k < |s| - |r| ==> s[k] == '-'
  {
    if s != [] && s[0] == '-' then DropHyphens(s[1..]) else s
  }

  predicate NoDoubleHyphen(s: string)
  {
    forall k :: 0 <= k < |s| - 1 ==> !(s[k] == '-' && s[k + 1] == '-')
  }

  /** `re.sub(r'-+', '-', s)`: the leftmost greedy run of hyphens becomes one
      hyphen, and scanning resumes after the run. */
  function CollapseHyphens(s: string): (r: string)
    ensures NoDoubleHyphen(r)
    ensures |r| <= |s|
    ensures r == [] <==> s == []
    ensures r != [] ==> (r[0] == '-' <==> s[0] == '-')
    ensures NoDoubleHyphen(s) ==> r == s
    decreases |s|
  {
    if s == [] then []
    else if s[0] == '-' then
      var t := DropHyphens(s[1..]);
      assert NoDoubleHyphen(s) ==> t == s[1..] by {
        if NoDoubleHyphen(s) && |s| > 1 {
          assert s[1] != '-';
        }
      }
      "-" + CollapseHyphens(t)
    else
      assert NoDoubleHyphen(s) ==> NoDoubleHyphen(s[1..]) by {
        if NoDoubleHyphen(s) {
          forall k | 0 <= k < |s[1..]| - 1 ensures !(s[1..][k] == '-' && s[1..][k + 1] == '-') {
            assert s[1..][k] == s[k + 1];
          }
        }
      }
      [s[0]] + CollapseHyphens(s[1..])
  }

  /** `s` without its hyphens. */
  function Unhyphen(s: string): (r: string)
    ensures forall k :: 0 <= k < |r| ==> r[k] != '-'
  {
    if s == [] then [] else (if s[0] == '-' then [] else [s[0]]) + Unhyphen(s[1..])
  }

  lemma {:induction false} UnhyphenLeading(s: string)
    ensures Unhyphen(DropHyphens(s)) == Unhyphen(s)
    decreases |s|
  {
    if s != [] && s[0] == '-' {
      UnhyphenLeading(s[1..]);
    }
  }

  /** Collapsing touches hyphens only: every other character survives, in
      order. */
  lemma {:induction false} CollapseKeepsText(s: string)
    ensures Unhyphen(CollapseHyphens(s)) == Unhyphen(s)
    decreases |s|
  {
    if s != [] {
      if s[0] == '-' {
        var t := DropHyphens(s[1..]);
        CollapseKeepsText(t);
        UnhyphenLeading(s[1..]);
        var r := CollapseHyphens(s);
        assert r == "-" + CollapseHyphens(t);
        assert r[1..] == CollapseHyphens(t);
      } else {
        CollapseKeepsText(s[1..]);
        var r := CollapseHyphens(s);
        assert r[1..] == CollapseHyphens(s[1..]);
      }
    }
  }

  /** `slugify(text)`, the NFKC step being the identity on the modelled
      text. */
  function Slugify(text: string, word: char -> bool): (r: string)
    ensures forall k :: 0 <= k < |r| ==> r[k] != ' '
    ensures NoDoubleHyphen(r)
    ensures forall k :: 0 <= k < |r| ==> Allowed(word, r[k])
  {
    var kept := Keep(Lower(Strip(text)), word);
    var dashed := SpacesToHyphens(kept);
    assert forall k :: 0 <= k < |dashed| ==> Allowed(word, dashed[k]) && dashed[k] != ' ';
    var r := CollapseHyphens(dashed);
    CollapseChars(dashed, (c: char) => Allowed(word, c) && c != ' ');
    r
  }

  /** Collapsing hyphens introduces no character that was not there (a
      hyphen only replaces hyphens). */
  lemma {:induction false} CollapseChars(s: string, P: char -> bool)
    requires forall k :: 0 <= k < |s| ==> P(s[k])
    ensures forall k :: 0 <= k < |CollapseHyphens(s)| ==> P(CollapseHyphens(s)[k])
    decreases |s|
  {
    if s != [] {
      if s[0] == '-' {
        var t := DropHyphens(s[1..]);
        assert forall k :: 0 <= k < |t| ==> t[k] == s[|s| - |t| + k];
        CollapseChars(t, P);
      } else {
        CollapseChars(s[1..], P);
      }
    }
  }

  lemma LowerConcat(a: string, b: string)
    ensures Lower(a + b) == Lower(a) + Lower(b)
  {
    assert forall k :: 0 <= k < |a + b| ==> Lower(a + b)[k] == (Lower(a) + Lower(b))[k];
  }

  lemma SpacesToHyphensConcat(a: string, b: string)
    ensures SpacesToHyphens(a + b) == SpacesToHyphens(a) + SpacesToHyphens(b)
  {
    assert forall k :: 0 <= k < |a + b| ==> SpacesToHyphens(a + b)[k] == (SpacesToHyphens(a) + SpacesToHyphens(b))[k];
  }

  /** The example the source's behaviour is usually shown with. */
  lemma HelloWorld(word: char -> bool)
    requires IsAsciiWordClass(word)
    ensures Slugify("Hello, World!", word) == "hello-world"
  {
    var t := "Hello" + ", " + "World" + "!";
    assert t == "Hello, World!";
    HelloStrip(t);
    HelloLower();
    HelloKeep(word);
    HelloDash();
  }

  lemma HelloStrip(t: string)
    requires t == "Hello" + ", " + "World" + "!"
    ensures Strip(t) == t
  {
    assert t[0] == 'H' && t[|t| - 1] == '!';
    assert TrimStart(t) == t;
    assert TrimEnd(t) == t;
  }

  lemma HelloLower()
    ensures Lower("Hello" + ", " + "World" + "!") == "hello" + ", " + "world" + "!"
  {
    LowerConcat("Hello" + ", " + "World", "!");
    LowerConcat("Hello" + ", ", "World");
    LowerConcat("Hello", ", ");
    assert Lower("Hello") == "hello";
    assert Lower(", ") == ", ";
    assert Lower("World") == "world";
    assert Lower("!") == "!";
  }

  lemma HelloKeep(word: char -> bool)
    requires IsAsciiWordClass(word)
    ensures Keep("hello" + ", " + "world" + "!", word) == "hello" + " " + "world"
  {
    KeepConcat("hello" + ", " + "world", "!", word);
    KeepConcat("hello" + ", ", "world", word);
    KeepConcat("hello", ", ", word);
    KeepWords(word);
    KeepPunctuation(word);
  }

  lemma KeepWords(word: char -> bool)
    requires IsAsciiWordClass(word)
    ensures Keep("hello", word) == "hello" && Keep("world", word) == "world"
  {
    assert word('h') && word('e') && word('l') && word('o');
    assert word('w') && word('r') && word('d');
  }

  lemma KeepPunctuation(word: char -> bool)
    requires IsAsciiWordClass(word)
    ensures Keep(", ", word) == " " && Keep("!", word) == ""
  {
    assert !word(',') && !word('!');
    assert Keep(" ", word) == " ";
  }

  lemma HelloDash()
    ensures SpacesToHyphens("hello" + " " + "world") == "hello-world"
    ensures CollapseHyphens("hello-world") == "hello-world"
  {
    SpacesToHyphensConcat("hello" + " ", "world");
    SpacesToHyphensConcat("hello", " ");
    assert SpacesToHyphens("hello") == "hello";
    assert SpacesToHyphens("world") == "world";
    assert "hello" + "-" + "world" == "hello-world";
    HelloWorldSingle();
  }

  lemma HelloWorldSingle()
    ensures NoDoubleHyphen("hello-world")
  {
    var s := "hello-world";
    forall k | 0 <= k < |s| - 1 ensures !(s[k] == '-' && s[k + 1] == '-') {
      assert k != 5 ==> s[k] != '-';
    }
  }
}
