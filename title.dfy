/**
 * The heading shown for a presentation on the index page:
 * `name.replace(/-/g, " ").replace(/\b\w/g, (l) => l.toUpperCase())`.
 */
module Title {
  import opened JsText

  /** `replace(/-/g, " ")`: every hyphen becomes a space. */
  function Dehyphen(s: string): (r: string)
    ensures |r| == |s|
    ensures forall i :: 0 <= i < |s| ==> r[i] == (if s[i] == '-' then ' ' else s[i])
    ensures '-' !in r
    ensures forall c :: c != '-' && c != ' ' ==> (c in r <==> c in s)
  {
    seq(|s|, i requires 0 <= i < |s| => if s[i] == '-' then ' ' else s[i])
  }

  /**
   * `replace(/\b\w/g, upper)` on the rest of a string, `afterWord` telling
   * whether the character before it was a word character: a word character
   * right after a non-word character (or at the start) is a match of
   * `\b\w` and is upper-cased.
   */
  function CapitalizeFrom(s: string, afterWord: bool): string {
    if s == [] then []
    else
      var c := s[0];
      [if IsWordChar(c) && !afterWord then UpperChar(c) else c] + CapitalizeFrom(s[1..], IsWordChar(c))
  }

  function Humanize(name: string): string {
    CapitalizeFrom(Dehyphen(name), false)
  }

  /** Position `i` of `s` starts a maximal run of word characters. */
  predicate StartsWord(s: string, i: nat)
    requires i < |s|
  {
    IsWordChar(s[i]) && (i == 0 || !IsWordChar(s[i - 1]))
  }

  /** Upper-casing keeps a character's class. */
  lemma UpperKeepsClass(c: char)
    ensures IsWordChar(UpperChar(c)) == IsWordChar(c)
    ensures (UpperChar(c) == '-') == (c == '-')
  {
  }

  lemma {:induction false} CapitalizeFromAt(s: string, afterWord: bool, i: nat)
    requires i < |s|
    ensures |CapitalizeFrom(s, afterWord)| == |s|
    ensures CapitalizeFrom(s, afterWord)[i]
         == if IsWordChar(s[i]) && !(if i == 0 then afterWord else IsWordChar(s[i - 1]))
            then UpperChar(s[i]) else s[i]
    decreases |s|
  {
    if i == 0 {
      CapitalizeFromLength(s[1..], IsWordChar(s[0]));
    } else {
      CapitalizeFromAt(s[1..], IsWordChar(s[0]), i - 1);
    }
  }

  lemma {:induction false} CapitalizeFromLength(s: string, afterWord: bool)
    ensures |CapitalizeFrom(s, afterWord)| == |s|
    decreases |s|
  {
    if s != [] {
      CapitalizeFromLength(s[1..], IsWordChar(s[0]));
    }
  }

  /**
   * Character by character: a hyphen becomes a space, the first character of
   * every maximal run of `[A-Za-z0-9_]` is upper-cased, and every other
   * character is kept. The length does not change.
   */
  lemma HumanizeAt(name: string)
    ensures |Humanize(name)| == |name|
    ensures forall i :: 0 <= i < |name| ==>
      Humanize(name)[i] == if name[i] == '-' then ' '
                           else if StartsWord(name, i) then UpperChar(name[i])
                           else name[i]
  {
    var d := Dehyphen(name);
    CapitalizeFromLength(d, false);
    forall i | 0 <= i < |name|
      ensures Humanize(name)[i] == if name[i] == '-' then ' '
                                   else if StartsWord(name, i) then UpperChar(name[i])
                                   else name[i]
    {
      CapitalizeFromAt(d, false, i);
    }
  }

  /** No hyphen survives. */
  lemma HumanizeNoHyphen(name: string)
    ensures '-' !in Humanize(name)
  {
    HumanizeAt(name);
    forall i | 0 <= i < |name| ensures Humanize(name)[i] != '-' {
      UpperKeepsClass(name[i]);
    }
  }

  /** Characters outside `[A-Za-z0-9_-]` are never touched, so a `/` in the title comes from the name. */
  lemma HumanizeKeepsOthers(name: string, c: char)
    requires !IsWordChar(c) && c != '-' && c != ' '
    ensures c in Humanize(name) <==> c in name
  {
    HumanizeAt(name);
    if c in Humanize(name) {
      var i :| 0 <= i < |Humanize(name)| && Humanize(name)[i] == c;
      UpperKeepsClass(name[i]);
    }
    if c in name {
      var i :| 0 <= i < |name| && name[i] == c;
      assert Humanize(name)[i] == c;
    }
  }

  /** Humanizing a title again changes nothing. */
  lemma HumanizeIdempotent(name: string)
    ensures Humanize(Humanize(name)) == Humanize(name)
  {
    var h := Humanize(name);
    HumanizeAt(name);
    HumanizeAt(h);
    forall i | 0 <= i < |h| ensures Humanize(h)[i] == h[i] {
      UpperKeepsClass(name[i]);
      if i > 0 { UpperKeepsClass(name[i - 1]); }
      assert IsWordChar(h[i]) == IsWordChar(name[i]);
      assert i > 0 ==> IsWordChar(h[i - 1]) == IsWordChar(name[i - 1]);
    }
  }

  lemma HumanizeExamples()
    ensures Humanize("my-cool-talk") == "My Cool Talk"
    ensures Humanize("foo_bar") == "Foo_bar"
  {
    HumanizeAt("my-cool-talk");
    HumanizeAt("foo_bar");
  }
}
