/** A reading of HTML text into its tags and the characters between them.
    A tag runs from a `<` to the first `>` after it (or to the end of the
    text when no `>` follows). This is the reference against which the
    output of the span emitter in module Generate is checked: removing the
    tags must leave the text, and the tags must alternate open/close. */
module Markup {

  /** The position just past the first `>` at or after `i`, or `|s|` when
      there is none. */
  function TagEnd(s: string, i: nat): (r: nat)
    requires i <= |s|
    ensures i <= r <= |s|
    ensures r == |s| || (i < r && s[r - 1] == '>')
    ensures forall j :: i <= j < r - 1 ==> s[j] != '>'
    decreases |s| - i
  {
    if i == |s| then i
    else if s[i] == '>' then i + 1
    else TagEnd(s, i + 1)
  }

  /** The text of `s` with every tag removed. */
  function StripTags(s: string): string
    decreases |s|
  {
    if s == [] then []
    else if s[0] == '<' then StripTags(s[TagEnd(s, 1)..])
    else [s[0]] + StripTags(s[1..])
  }

  /** The tags of `s`, each with its brackets, in the order they occur. */
  function Tags(s: string): seq<string>
    decreases |s|
  {
    if s == [] then []
    else if s[0] == '<' then [s[..TagEnd(s, 1)]] + Tags(s[TagEnd(s, 1)..])
    else Tags(s[1..])
  }

  /** A tag that opens a `span` element, with or without attributes. */
  predicate IsOpenTag(t: string)
  {
    |t| >= 6 && t[..5] == "<span" && (t[5] == '>' || t[5] == ' ')
  }

  /** The tag that closes a `span` element. */
  predicate IsCloseTag(t: string)
  {
    t == "</span>"
  }

  /** A well-formed tag: `<`, then anything but `>`, then `>`. */
  predicate IsTag(t: string)
  {
    |t| >= 2 && t[0] == '<' && t[|t| - 1] == '>' &&
    forall j :: 0 < j < |t| - 1 ==> t[j] != '>'
  }

  /** A well-formed tag is read as one tag, whatever follows it. */
  lemma ScanTag(tag: string, rest: string)
    requires IsTag(tag)
    ensures StripTags(tag + rest) == StripTags(rest)
    ensures Tags(tag + rest) == [tag] + Tags(rest)
  {
    var s := tag + rest;
    assert s[0] == '<';
    assert s[|tag| - 1] == '>';
    assert forall j :: 1 <= j < |tag| - 1 ==> s[j] == tag[j];
    var e := TagEnd(s, 1);
    assert e == |tag|;
    assert s[e..] == rest;
    assert s[..e] == tag;
  }

  /** Text without `<` passes through the reading unchanged and holds no
      tag. */
  lemma {:induction false} ScanText(text: string, rest: string)
    requires '<' !in text
    ensures StripTags(text + rest) == text + StripTags(rest)
    ensures Tags(text + rest) == Tags(rest)
    decreases |text|
  {
    if text != [] {
      var s := text + rest;
      assert s[0] == text[0] && s[0] != '<';
      assert s[1..] == text[1..] + rest;
      ScanText(text[1..], rest);
      assert [text[0]] + text[1..] == text;
    } else {
      assert text + rest == rest;
    }
  }

  /** Concatenation is associative. */
  lemma Assoc<T>(a: seq<T>, b: seq<T>, c: seq<T>)
    ensures (a + b) + c == a + (b + c)
  {
  }
}
