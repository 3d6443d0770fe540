/** A simplified stand-in for the Handlebars templates that `compile_step`
    renders: a `{{name}}` placeholder is replaced by the value of property
    `name` of the flattened context, and a name that is not there renders
    as the empty string. */
module Template {
  import opened Values

  /** How a looked-up value is printed: a missing property and null print
      nothing, anything else prints as `String(value)`. */
  function LeafText(found: Option<Value>): string
  {
    match found
    case None => ""
    case Some(Null) => ""
    case Some(v) => JsString(v)
  }

  /** The position of the first "}}" at or after position `i`. */
  function FindClose(s: string, i: nat): (r: Option<nat>)
    requires i <= |s|
    ensures r.Some? ==> i <= r.value && r.value + 1 < |s| && s[r.value] == '}' && s[r.value + 1] == '}'
    ensures r.Some? ==> forall j :: i <= j < r.value ==> !(s[j] == '}' && s[j + 1] == '}')
    ensures r.None? ==> forall j :: i <= j < |s| - 1 ==> !(s[j] == '}' && s[j + 1] == '}')
    decreases |s| - i
  {
    if i + 1 >= |s| then None
    else if s[i] == '}' && s[i + 1] == '}' then Some(i)
    else FindClose(s, i + 1)
  }

  /** The whitespace a mustache may hold around the name it refers to. */
  predicate IsSpace(c: char)
  {
    c == ' ' || c == '\t' || c == '\n' || c == '\r'
  }

  predicate AllSpace(s: string)
  {
    forall i :: 0 <= i < |s| ==> IsSpace(s[i])
  }

  function TrimStart(s: string): (r: string)
    ensures r == [] || !IsSpace(r[0])
  {
    if s != [] && IsSpace(s[0]) then TrimStart(s[1..]) else s
  }

  function TrimEnd(s: string): (r: string)
    ensures r == [] || !IsSpace(r[|r| - 1])
  {
    if s != [] && IsSpace(s[|s| - 1]) then TrimEnd(s[..|s| - 1]) else s
  }

  /** The name inside a mustache, without the whitespace around it. */
  function Trim(s: string): string
  {
    TrimEnd(TrimStart(s))
  }

  /** A name with no whitespace at either end. */
  predicate Trimmed(name: string)
  {
    name == [] || (!IsSpace(name[0]) && !IsSpace(name[|name| - 1]))
  }

  /** `s` holds no '{', so no placeholder. */
  predicate Unbraced(s: string)
  {
    s == [] || (s[0] != '{' && Unbraced(s[1..]))
  }

  /** Renders template `s` against the flattened context `flat`. Text
      outside placeholders is copied; a "{{" that is never closed is kept as
      it is. */
  function {:tailrecursion false} Render(s: string, flat: Fields): (r: string)
    ensures Unbraced(s) ==> r == s
    decreases |s|
  {
    if s == [] then []
    else if |s| >= 2 && s[0] == '{' && s[1] == '{' then
      match FindClose(s, 2)
      case None => s
      case Some(j) => LeafText(Lookup(flat, Trim(s[2..j]))) + Render(s[j + 2..], flat)
    else
      [s[0]] + Render(s[1..], flat)
  }

  lemma {:induction false} TrimStartSpaces(pre: string, s: string)
    requires AllSpace(pre)
    ensures TrimStart(pre + s) == TrimStart(s)
    decreases |pre|
  {
    if pre != [] {
      assert (pre + s)[1..] == pre[1..] + s;
      TrimStartSpaces(pre[1..], s);
    } else {
      assert pre + s == s;
    }
  }

  lemma {:induction false} TrimEndSpaces(s: string, post: string)
    requires AllSpace(post)
    ensures TrimEnd(s + post) == TrimEnd(s)
    decreases |post|
  {
    if post != [] {
      var shorter := post[..|post| - 1];
      assert (s + post)[..|s + post| - 1] == s + shorter;
      TrimEndSpaces(s, shorter);
    } else {
      assert s + post == s;
    }
  }

  /** Whitespace around a name is dropped, and the name is kept whole. */
  lemma TrimPadded(pre: string, name: string, post: string)
    requires AllSpace(pre) && AllSpace(post) && Trimmed(name)
    ensures Trim(pre + name + post) == name
  {
    assert pre + name + post == pre + (name + post);
    TrimStartSpaces(pre, name + post);
    if name == [] {
      assert name + post == post + [];
      TrimStartSpaces(post, []);
    } else {
      assert (name + post)[0] == name[0];
    }
    TrimEndSpaces(name, post);
  }

  lemma RenderPlainChar(c: char, s: string, flat: Fields)
    requires c != '{'
    ensures Render([c] + s, flat) == [c] + Render(s, flat)
  {
    assert ([c] + s)[1..] == s;
  }

  /** Text without braces is copied unchanged. */
  lemma {:induction false} RenderPlainText(text: string, rest: string, flat: Fields)
    requires '{' !in text
    ensures Render(text + rest, flat) == text + Render(rest, flat)
    decreases |text|
  {
    if text == [] {
      assert text + rest == rest;
    } else {
      SplitHead(text, rest, Render(rest, flat));
      RenderPlainChar(text[0], text[1..] + rest, flat);
      RenderPlainText(text[1..], rest, flat);
    }
  }

  lemma SplitHead(text: string, rest: string, rendered: string)
    requires text != []
    ensures text + rest == [text[0]] + (text[1..] + rest)
    ensures [text[0]] + (text[1..] + rendered) == text + rendered
  {
    assert text == [text[0]] + text[1..];
  }

  /** A placeholder is replaced by the printed value of the name it holds,
      whitespace around the name aside, and rendering carries on after it. */
  lemma RenderPlaceholder(name: string, rest: string, flat: Fields)
    requires '}' !in name
    ensures Render("{{" + name + "}}" + rest, flat) == LeafText(Lookup(flat, Trim(name))) + Render(rest, flat)
  {
    var s := "{{" + name + "}}" + rest;
    var close := 2 + |name|;
    assert s[close] == '}' && s[close + 1] == '}';
    assert forall j :: 2 <= j < close ==> s[j] != '}' by {
      forall j | 2 <= j < close ensures s[j] != '}' { assert s[j] == name[j - 2]; }
    }
    assert FindClose(s, 2) == Some(close);
    assert s[2..close] == name;
    assert s[close + 2..] == rest;
  }

  lemma PaddedHasNoClose(pre: string, name: string, post: string)
    requires AllSpace(pre) && AllSpace(post) && '}' !in name
    ensures '}' !in pre + name + post
  {
    var inner := pre + name + post;
    forall i | 0 <= i < |inner| ensures inner[i] != '}' {
      if i < |pre| {
        assert IsSpace(pre[i]);
      } else if i < |pre| + |name| {
        assert inner[i] == name[i - |pre|];
      } else {
        assert IsSpace(post[i - |pre| - |name|]);
      }
    }
  }

  /** `{{ name }}` renders as `{{name}}` does. */
  lemma RenderSpacedPlaceholder(pre: string, name: string, post: string, rest: string, flat: Fields)
    requires AllSpace(pre) && AllSpace(post) && Trimmed(name) && '}' !in name
    ensures Render("{{" + (pre + name + post) + "}}" + rest, flat) == LeafText(Lookup(flat, name)) + Render(rest, flat)
  {
    PaddedHasNoClose(pre, name, post);
    RenderPlaceholder(pre + name + post, rest, flat);
    TrimPadded(pre, name, post);
  }

  /** A placeholder whose name is not a key of the flattened context
      renders as the empty string; it is not an error. */
  lemma MissingPlaceholderIsEmpty(name: string, flat: Fields)
    requires '}' !in name && Lookup(flat, Trim(name)) == None
    ensures Render("{{" + name + "}}", flat) == ""
  {
    RenderPlaceholder(name, "", flat);
    assert "{{" + name + "}}" + "" == "{{" + name + "}}";
  }
}
