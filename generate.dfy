/** The span emitter of `ansiToHTML` in generate.go. The ANSI tokenizer's
    output is the input here: a sequence of tokens, each a run of text or a
    command carrying the foreground-colour code the tokenizer recorded for it.
    Text is copied as it is; every command closes the open `<span>` and
    opens a new one whose class is looked up from the colour code. */
module Generate {
  import opened Markup

  /** A token of the ANSI tokenizer: a run of (already HTML-escaped) text,
      or a command with its foreground-colour code. */
  datatype Token = Text(content: string) | Command(fg: string)

  /** Foreground-colour codes and the CSS class each one maps to. */
  const AnsiTable: map<string, string> := map[
    "" := "",
    "30" := "",
    "31" := "red",
    "32" := "green",
    "33" := "yellow",
    "34" := "blue",
    "35" := "purple",
    "38;5;9" := "red",
    "38;5;10" := "green",
    "38;5;11" := "yellow",
    "38;5;12" := "blue"
  ]

  /** Every class name the table can produce. */
  const Palette: set<string> := {"", "red", "green", "yellow", "blue", "purple"}

  const OpenSpan: string := "<span>"
  const CloseSpan: string := "</span>"

  /** A class name that can stand between the quotes of an HTML attribute
      without ending it or the tag: lower-case letters only. */
  predicate IsClassName(c: string)
  {
    forall k :: 0 <= k < |c| ==> 'a' <= c[k] <= 'z'
  }

  /** The class for a command's colour code; a code the table lacks gets
      the empty class, as a reset does. */
  function ClassOf(fg: string): (c: string)
    ensures c in Palette
    ensures IsClassName(c)
    ensures fg !in AnsiTable ==> c == ""
  {
    if fg in AnsiTable then AnsiTable[fg] else ""
  }

  /** The tag that opens a span of class `c`. */
  function OpenClassSpan(c: string): string
  {
    "<span class=\"" + c + "\">"
  }

  /** What one token adds to the output. */
  function Emit(t: Token): string
  {
    match t
    case Text(s) => s
    case Command(fg) => CloseSpan + OpenClassSpan(ClassOf(fg))
  }

  /** The output between the first `<span>` and the last `</span>`. */
  function Body(ts: seq<Token>): string
  {
    if ts == [] then "" else Emit(ts[0]) + Body(ts[1..])
  }

  /** The whole HTML fragment for a token sequence. */
  function Render(ts: seq<Token>): string
  {
    OpenSpan + Body(ts) + CloseSpan
  }

  /** The contents of the text tokens, concatenated in order. */
  function TextOf(ts: seq<Token>): string
  {
    if ts == [] then ""
    else (if ts[0].Text? then ts[0].content else "") + TextOf(ts[1..])
  }

  /** The colour codes of the command tokens, in order. */
  function CommandFgs(ts: seq<Token>): seq<string>
  {
    if ts == [] then []
    else (if ts[0].Command? then [ts[0].fg] else []) + CommandFgs(ts[1..])
  }

  /** The colour codes the table lacks, in order: the diagnostic lines
      printed during a conversion. */
  function UnknownFgs(ts: seq<Token>): seq<string>
  {
    if ts == [] then []
    else (if ts[0].Command? && ts[0].fg !in AnsiTable then [ts[0].fg] else [])
         + UnknownFgs(ts[1..])
  }

  /** The classes of the spans the commands open, in order. */
  function CommandClasses(ts: seq<Token>): seq<string>
  {
    if ts == [] then []
    else (if ts[0].Command? then [ClassOf(ts[0].fg)] else []) + CommandClasses(ts[1..])
  }

  /** The tags a sequence of commands inserts, given their classes: per
      command, one closing tag followed by one opening tag of its class. */
  function SpanTags(classes: seq<string>): seq<string>
  {
    if classes == [] then []
    else [CloseSpan, OpenClassSpan(classes[0])] + SpanTags(classes[1..])
  }

  /** No text token holds a `<`. HTML escaping of the input, done before
      tokenizing, makes this so. */
  predicate Escaped(ts: seq<Token>)
  {
    forall k :: 0 <= k < |ts| ==> ts[k].Text? ==> '<' !in ts[k].content
  }

  /** The conversion loop: `html` is the fragment, `unknown` the colour codes
      reported as unknown, in the order they were met. */
  method AnsiToHtml(tokens: seq<Token>) returns (html: string, unknown: seq<string>)
    ensures html == Render(tokens)
    ensures unknown == UnknownFgs(tokens)
  {
    html := OpenSpan;
    unknown := [];
    for i := 0 to |tokens|
      invariant html == OpenSpan + Body(tokens[..i])
      invariant unknown == UnknownFgs(tokens[..i])
    {
      var token := tokens[i];
      assert tokens[..i + 1] == tokens[..i] + [token];
      Step(tokens[..i], token);
      if token.Text? {
        html := html + token.content;
        continue;
      }
      var cls: string;
      if token.fg in AnsiTable {
        cls := AnsiTable[token.fg];
      } else {
        unknown := unknown + [token.fg];
        cls := "";
      }
      assert cls == ClassOf(token.fg);
      html := html + (CloseSpan + OpenClassSpan(cls));
    }
    assert tokens[..|tokens|] == tokens;
    html := html + CloseSpan;
  }

  /** One step of the loop: appending a token to those already converted
      appends what that token emits, and its diagnostic if it has one. */
  lemma Step(done: seq<Token>, t: Token)
    ensures OpenSpan + Body(done + [t]) == OpenSpan + Body(done) + Emit(t)
    ensures UnknownFgs(done + [t]) ==
      UnknownFgs(done) + if t.Command? && t.fg !in AnsiTable then [t.fg] else []
  {
    BodyConcat(done, [t]);
    UnknownConcat(done, [t]);
    assert [t][1..] == [];
    assert Body([t]) == Emit(t);
    Assoc(OpenSpan, Body(done), Emit(t));
  }

  /** The output for a concatenation is the concatenation of the outputs:
      nothing an earlier token does changes what a later one emits. */
  lemma {:induction false} BodyConcat(a: seq<Token>, b: seq<Token>)
    ensures Body(a + b) == Body(a) + Body(b)
    decreases |a|
  {
    if a == [] {
      assert a + b == b;
    } else {
      assert (a + b)[0] == a[0];
      assert (a + b)[1..] == a[1..] + b;
      BodyConcat(a[1..], b);
      Assoc(Emit(a[0]), Body(a[1..]), Body(b));
    }
  }

  /** The diagnostics for a concatenation are those of its parts, in order. */
  lemma {:induction false} UnknownConcat(a: seq<Token>, b: seq<Token>)
    ensures UnknownFgs(a + b) == UnknownFgs(a) + UnknownFgs(b)
    decreases |a|
  {
    if a == [] {
      assert a + b == b;
    } else {
      assert (a + b)[0] == a[0];
      assert (a + b)[1..] == a[1..] + b;
      UnknownConcat(a[1..], b);
      var head := if a[0].Command? && a[0].fg !in AnsiTable then [a[0].fg] else [];
      assert UnknownFgs(a + b) == head + UnknownFgs(a[1..] + b);
      assert UnknownFgs(a) == head + UnknownFgs(a[1..]);
      Assoc(head, UnknownFgs(a[1..]), UnknownFgs(b));
    }
  }

  /** An empty token sequence gives exactly `<span></span>`. */
  lemma RenderEmpty()
    ensures Render([]) == "<span></span>"
  {
  }

  /** Every fragment starts with `<span>` and ends with `</span>`. */
  lemma RenderFrame(ts: seq<Token>)
    ensures |Render(ts)| >= |OpenSpan| + |CloseSpan|
    ensures Render(ts)[..|OpenSpan|] == "<span>"
    ensures Render(ts)[|Render(ts)| - |CloseSpan|..] == "</span>"
  {
  }

  /** Without commands the fragment is the text in one span. */
  lemma {:induction false} RenderNoCommands(ts: seq<Token>)
    requires CommandFgs(ts) == []
    ensures Render(ts) == OpenSpan + TextOf(ts) + CloseSpan
  {
    BodyNoCommands(ts);
  }

  /** Without commands the body is exactly the text. */
  lemma {:induction false} BodyNoCommands(ts: seq<Token>)
    requires CommandFgs(ts) == []
    ensures Body(ts) == TextOf(ts)
    decreases |ts|
  {
    if ts != [] {
      BodyNoCommands(ts[1..]);
    }
  }

  /** The emitter's three kinds of tag are well formed, and which of them
      open and which close. The class name cannot end the tag early. */
  lemma TagForms(c: string)
    requires IsClassName(c)
    ensures IsTag(OpenSpan) && IsTag(CloseSpan) && IsTag(OpenClassSpan(c))
    ensures IsOpenTag(OpenSpan) && !IsCloseTag(OpenSpan)
    ensures IsOpenTag(OpenClassSpan(c)) && !IsCloseTag(OpenClassSpan(c))
    ensures !IsOpenTag(CloseSpan) && IsCloseTag(CloseSpan)
  {
    var t := OpenClassSpan(c);
    forall j | 0 < j < |t| - 1 ensures t[j] != '>' {
      if 13 <= j < 13 + |c| { assert t[j] == c[j - 13]; }
    }
    assert t[..5] == "<span" && t[5] == ' ';
    assert t[1] != '/';
  }

  /** The markup of one command reads as its closing and its opening tag,
      whatever follows it, and adds no text. */
  lemma ScanCommand(c: string, rest: string)
    requires IsClassName(c)
    ensures StripTags(CloseSpan + OpenClassSpan(c) + rest) == StripTags(rest)
    ensures Tags(CloseSpan + OpenClassSpan(c) + rest) == [CloseSpan, OpenClassSpan(c)] + Tags(rest)
  {
    var open := OpenClassSpan(c);
    TagForms(c);
    ScanTag(open, rest);
    Assoc(CloseSpan, open, rest);
    ScanTag(CloseSpan, open + rest);
    Assoc([CloseSpan], [open], Tags(rest));
  }

  /** The tags one token's output holds when read. */
  function TokenTags(t: Token): seq<string>
  {
    if t.Command? then [CloseSpan, OpenClassSpan(ClassOf(t.fg))] else []
  }

  /** One token's output, followed by anything: a text token reads as its
      text, a command as its two tags. */
  lemma ScanToken(t: Token, rest: string)
    requires t.Text? ==> '<' !in t.content
    ensures StripTags(Emit(t) + rest) == (if t.Text? then t.content else "") + StripTags(rest)
    ensures Tags(Emit(t) + rest) == TokenTags(t) + Tags(rest)
  {
    match t
    case Text(s) =>
      ScanText(s, rest);
      assert TokenTags(t) + Tags(rest) == Tags(rest);
    case Command(fg) =>
      ScanCommand(ClassOf(fg), rest);
  }

  /** The tags the commands of a non-empty sequence insert are those of its
      first token, then those of the rest. */
  lemma SpanTagsCons(ts: seq<Token>)
    requires ts != []
    ensures SpanTags(CommandClasses(ts)) == TokenTags(ts[0]) + SpanTags(CommandClasses(ts[1..]))
  {
    var cs := CommandClasses(ts[1..]);
    if ts[0].Command? {
      var c := ClassOf(ts[0].fg);
      assert CommandClasses(ts) == [c] + cs;
      assert ([c] + cs)[1..] == cs;
    } else {
      assert CommandClasses(ts) == cs;
    }
  }

  /** Reading the body followed by any text: its tags are the ones the
      commands insert, and what remains is the text tokens' contents. */
  lemma {:induction false} ScanBody(ts: seq<Token>, suffix: string)
    requires Escaped(ts)
    ensures StripTags(Body(ts) + suffix) == TextOf(ts) + StripTags(suffix)
    ensures Tags(Body(ts) + suffix) == SpanTags(CommandClasses(ts)) + Tags(suffix)
    decreases |ts|
  {
    if ts == [] {
      assert Body(ts) + suffix == suffix;
    } else {
      var t := ts[0];
      var tail := ts[1..];
      assert Escaped(tail) by {
        forall k | 0 <= k < |tail| ensures tail[k].Text? ==> '<' !in tail[k].content {
          assert tail[k] == ts[k + 1];
        }
      }
      ScanBody(tail, suffix);
      var rest := Body(tail) + suffix;
      Assoc(Emit(t), Body(tail), suffix);
      ScanToken(t, rest);
      var head := if t.Text? then t.content else "";
      Assoc(head, TextOf(tail), StripTags(suffix));
      SpanTagsCons(ts);
      Assoc(TokenTags(t), SpanTags(CommandClasses(tail)), Tags(suffix));
    }
  }

  /** The leading `<span>` and the trailing `</span>` of a fragment read as
      one tag each. */
  lemma ScanFrame(body: string)
    ensures StripTags(OpenSpan + body) == StripTags(body)
    ensures Tags(OpenSpan + body) == [OpenSpan] + Tags(body)
    ensures StripTags(CloseSpan) == []
    ensures Tags(CloseSpan) == [CloseSpan]
  {
    TagForms("");
    ScanTag(OpenSpan, body);
    ScanTag(CloseSpan, "");
    assert CloseSpan + "" == CloseSpan;
    assert Tags("") == [] && StripTags("") == [];
    assert [CloseSpan] + [] == [CloseSpan];
  }

  /** Removing the tags from the fragment leaves exactly the text tokens'
      contents, in input order. */
  lemma RenderStripsToText(ts: seq<Token>)
    requires Escaped(ts)
    ensures StripTags(Render(ts)) == TextOf(ts)
  {
    var body := Body(ts) + CloseSpan;
    Assoc(OpenSpan, Body(ts), CloseSpan);
    ScanFrame(body);
    ScanBody(ts, CloseSpan);
    assert TextOf(ts) + [] == TextOf(ts);
  }

  /** The tags of the fragment: `<span>`, then one close/open pair per
      command, then `</span>`. */
  lemma RenderTags(ts: seq<Token>)
    requires Escaped(ts)
    ensures Tags(Render(ts)) == [OpenSpan] + SpanTags(CommandClasses(ts)) + [CloseSpan]
  {
    var body := Body(ts) + CloseSpan;
    Assoc(OpenSpan, Body(ts), CloseSpan);
    ScanFrame(body);
    ScanBody(ts, CloseSpan);
    Assoc([OpenSpan], SpanTags(CommandClasses(ts)), [CloseSpan]);
  }

  /** The k-th span a command opens has the class the table gives the k-th
      command's colour code. */
  lemma {:induction false} ClassesOfCommands(ts: seq<Token>)
    ensures |CommandClasses(ts)| == |CommandFgs(ts)|
    ensures forall k :: 0 <= k < |CommandFgs(ts)| ==> CommandClasses(ts)[k] == ClassOf(CommandFgs(ts)[k])
    decreases |ts|
  {
    if ts != [] {
      ClassesOfCommands(ts[1..]);
      if ts[0].Command? {
        var cs := CommandClasses(ts[1..]);
        var fgs := CommandFgs(ts[1..]);
        assert CommandClasses(ts) == [ClassOf(ts[0].fg)] + cs;
        assert CommandFgs(ts) == [ts[0].fg] + fgs;
        forall k | 1 <= k < |CommandFgs(ts)|
          ensures CommandClasses(ts)[k] == ClassOf(CommandFgs(ts)[k])
        {
          assert CommandClasses(ts)[k] == cs[k - 1];
          assert CommandFgs(ts)[k] == fgs[k - 1];
        }
      }
    }
  }

  /** Every class a fragment's spans carry is a lower-case name from the
      table's palette. */
  lemma {:induction false} ClassesInPalette(ts: seq<Token>)
    ensures forall k :: 0 <= k < |CommandClasses(ts)| ==>
      CommandClasses(ts)[k] in Palette && IsClassName(CommandClasses(ts)[k])
    decreases |ts|
  {
    if ts != [] {
      ClassesInPalette(ts[1..]);
      var head := if ts[0].Command? then [ClassOf(ts[0].fg)] else [];
      var cs := CommandClasses(ts[1..]);
      assert CommandClasses(ts) == head + cs;
      forall k | |head| <= k < |CommandClasses(ts)|
        ensures CommandClasses(ts)[k] == cs[k - |head|]
      {
      }
    }
  }

  /** The tags the commands insert: a closing tag at every even position, an
      opening tag at every odd one, the k-th opening tag of class
      `classes[k]`. */
  lemma {:induction false} SpanTagsAt(classes: seq<string>)
    requires forall k :: 0 <= k < |classes| ==> IsClassName(classes[k])
    ensures |SpanTags(classes)| == 2 * |classes|
    ensures forall i :: 0 <= i < |SpanTags(classes)| ==>
      (IsCloseTag(SpanTags(classes)[i]) <==> i % 2 == 0) &&
      (IsOpenTag(SpanTags(classes)[i]) <==> i % 2 == 1)
    ensures forall k :: 0 <= k < |classes| ==> SpanTags(classes)[2 * k + 1] == OpenClassSpan(classes[k])
    decreases |classes|
  {
    if classes != [] {
      var tail := classes[1..];
      SpanTagsAt(tail);
      TagForms(classes[0]);
      var r := SpanTags(classes);
      var rt := SpanTags(tail);
      assert r == [CloseSpan, OpenClassSpan(classes[0])] + rt;
      forall i | 2 <= i < |r| ensures r[i] == rt[i - 2] && (i - 2) % 2 == i % 2 { }
      forall k | 1 <= k < |classes| ensures r[2 * k + 1] == OpenClassSpan(classes[k]) {
        assert classes[k] == tail[k - 1];
        assert r[2 * k + 1] == rt[2 * (k - 1) + 1];
      }
    }
  }

  /** The tag list of a fragment whose commands carry `classes` alternates:
      even positions open, odd positions close, and the span after the k-th
      command has class `classes[k]`. */
  lemma FramedTags(classes: seq<string>)
    requires forall k :: 0 <= k < |classes| ==> IsClassName(classes[k])
    ensures var tags := [OpenSpan] + SpanTags(classes) + [CloseSpan];
      |tags| == 2 * (|classes| + 1) &&
      (forall i :: 0 <= i < |tags| ==>
        (IsOpenTag(tags[i]) <==> i % 2 == 0) && (IsCloseTag(tags[i]) <==> i % 2 == 1)) &&
      tags[0] == OpenSpan &&
      forall k :: 0 <= k < |classes| ==> tags[2 * k + 2] == OpenClassSpan(classes[k])
  {
    var st := SpanTags(classes);
    var tags := [OpenSpan] + st + [CloseSpan];
    SpanTagsAt(classes);
    TagForms("");
    forall i | 1 <= i < |tags| - 1 ensures tags[i] == st[i - 1] && (i - 1) % 2 != i % 2 { }
    assert tags[|tags| - 1] == CloseSpan;
  }

  /** The fragment's tags are balanced and strictly alternate: there are
      (number of commands + 1) opening and as many closing span tags, the
      even positions open and the odd ones close; the span after the k-th
      command has the class the table gives that command's code alone. */
  lemma RenderBalanced(ts: seq<Token>)
    requires Escaped(ts)
    ensures var tags := Tags(Render(ts));
      |tags| == 2 * (|CommandFgs(ts)| + 1) &&
      (forall i :: 0 <= i < |tags| ==>
        (IsOpenTag(tags[i]) <==> i % 2 == 0) && (IsCloseTag(tags[i]) <==> i % 2 == 1)) &&
      tags[0] == OpenSpan &&
      forall k :: 0 <= k < |CommandFgs(ts)| ==> tags[2 * k + 2] == OpenClassSpan(ClassOf(CommandFgs(ts)[k]))
  {
    RenderTags(ts);
    ClassesOfCommands(ts);
    ClassesInPalette(ts);
    FramedTags(CommandClasses(ts));
  }

  /** A command with a colour code the table lacks renders as a reset
      (code "") does; the conversion carries on. */
  lemma UnknownIsReset(ts: seq<Token>, i: nat)
    requires i < |ts| && ts[i].Command? && ts[i].fg !in AnsiTable
    ensures Render(ts[i := Command("")]) == Render(ts)
  {
    var us := ts[i := Command("")];
    assert ts == ts[..i] + [ts[i]] + ts[i + 1..];
    assert us == ts[..i] + [Command("")] + ts[i + 1..];
    BodyConcat(ts[..i] + [ts[i]], ts[i + 1..]);
    BodyConcat(ts[..i], [ts[i]]);
    BodyConcat(ts[..i] + [Command("")], ts[i + 1..]);
    BodyConcat(ts[..i], [Command("")]);
    assert Body([ts[i]]) == Emit(ts[i]);
    assert Body([Command("")]) == Emit(Command(""));
  }

  /** A red run of text followed by a reset: an empty first span, the text
      in a `red` span, then an empty span of class "". */
  lemma RenderExample()
    ensures Render([Command("31"), Text("FAIL"), Command("")]) ==
      OpenSpan + CloseSpan + OpenClassSpan("red") + "FAIL" + CloseSpan + OpenClassSpan("") + CloseSpan
  {
    var red := CloseSpan + OpenClassSpan("red");
    var reset := CloseSpan + OpenClassSpan("");
    assert ClassOf("31") == "red" && ClassOf("") == "";
    var ts := [Command("31"), Text("FAIL"), Command("")];
    assert ts == [Command("31")] + [Text("FAIL")] + [Command("")];
    BodyConcat([Command("31")] + [Text("FAIL")], [Command("")]);
    BodyConcat([Command("31")], [Text("FAIL")]);
    assert [Command("31")][1..] == [] && [Text("FAIL")][1..] == [] && [Command("")][1..] == [];
    assert Body(ts) == red + "FAIL" + reset;
  }

  /** The table's entries, read code by code and class by class: the
      classes each code yields, and the codes each class comes from. */
  lemma TableClasses(fg: string)
    ensures ClassOf("31") == "red" && ClassOf("35") == "purple" && ClassOf("38;5;12") == "blue"
    ensures ClassOf("") == "" && ClassOf("30") == ""
    ensures ClassOf(fg) == "red" <==> fg == "31" || fg == "38;5;9"
    ensures ClassOf(fg) == "green" <==> fg == "32" || fg == "38;5;10"
    ensures ClassOf(fg) == "yellow" <==> fg == "33" || fg == "38;5;11"
    ensures ClassOf(fg) == "blue" <==> fg == "34" || fg == "38;5;12"
    ensures ClassOf(fg) == "purple" <==> fg == "35"
    ensures ClassOf(fg) == "" <==> fg !in AnsiTable || fg == "" || fg == "30"
  {
  }

  /** The diagnostics name exactly the commands' colour codes the table
      lacks; so none is printed exactly when every code is in the table. */
  lemma {:induction false} UnknownAreMissing(ts: seq<Token>)
    ensures forall fg :: fg in UnknownFgs(ts) <==> fg in CommandFgs(ts) && fg !in AnsiTable
    ensures UnknownFgs(ts) == [] <==> forall fg :: fg in CommandFgs(ts) ==> fg in AnsiTable
    decreases |ts|
  {
    if ts != [] {
      UnknownAreMissing(ts[1..]);
    }
    forall fg | fg in CommandFgs(ts) && fg !in AnsiTable ensures UnknownFgs(ts) != [] {
      assert fg in UnknownFgs(ts);
    }
  }
}
