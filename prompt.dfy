/**
 * pkg/widgets/prompt.go: the command prompt. Its text is "> ", the line
 * typed so far and a cursor, or, after an error, the error in red until the
 * next key. Enter runs the line as a command `:name args...` through the
 * first handler whose key the line starts with. Rendering is not modelled;
 * handlers are functions from the command name and arguments to an optional
 * error message.
 */
module Prompt {
  import opened Common
  import opened GoStrings

  const PROMPT_INITIAL: string := "> "
  const PROMPT_CURSOR: string := "[ ](bg:white)"

  /** The text of a prompt holding `line`. */
  function PromptText(line: string): string {
    PROMPT_INITIAL + line + PROMPT_CURSOR
  }

  /** The text setError shows: fmt.Sprintf(" [%s](bg:red)", err). */
  function ErrorText(message: string): string {
    " [" + message + "](bg:red)"
  }

  /** A text the prompt can be showing outside the error state: the initial text, a line and the cursor. */
  predicate IsPromptText(t: string) {
    |t| >= |PROMPT_INITIAL| + |PROMPT_CURSOR| && HasPrefix(t, PROMPT_INITIAL) && HasSuffix(t, PROMPT_CURSOR)
  }

  /** line(): the text between the initial "> " and the cursor. */
  function LineOf(t: string): (r: string)
    requires IsPromptText(t)
    ensures PromptText(r) == t
  {
    var r := t[|PROMPT_INITIAL|..|t| - |PROMPT_CURSOR|];
    assert t == t[..|PROMPT_INITIAL|] + r + t[|t| - |PROMPT_CURSOR|..];
    r
  }

  /** line() undoes writing a line into the prompt. */
  lemma LineOfPromptText(line: string)
    ensures IsPromptText(PromptText(line)) && LineOf(PromptText(line)) == line
  {
    var t := PromptText(line);
    assert t[..|PROMPT_INITIAL|] == PROMPT_INITIAL;
    assert t[|t| - |PROMPT_CURSOR|..] == PROMPT_CURSOR;
    assert t[|PROMPT_INITIAL|..|t| - |PROMPT_CURSOR|] == line;
  }

  /**
   * tryParseCmd: a line is a command when it starts with ':' and what
   * follows has a field; the command name is the first field and the
   * arguments are the others. Otherwise ("", nil, false).
   */
  function TryParseCmd(line: string): (r: (string, seq<string>, bool))
    ensures r.2 <==> HasPrefix(line, ":") && Fields(line[1..]) != []
    ensures r.2 ==> [r.0] + r.1 == Fields(line[1..]) && IsWord(r.0)
    ensures !r.2 ==> r.0 == "" && r.1 == []
  {
    if !HasPrefix(line, ":") then ("", [], false)
    else
      var parts := Fields(line[1..]);
      if |parts| == 0 then ("", [], false)
      else
        assert parts == [parts[0]] + parts[1..];
        (parts[0], parts[1..], true)
  }

  /** A ':' followed by words separated by single spaces parses back into the first word as the command and the others as its arguments. */
  lemma TryParseCmdOfWords(words: seq<string>)
    requires |words| > 0 && forall i | 0 <= i < |words| :: IsWord(words[i])
    ensures TryParseCmd(":" + Join(words, " ")) == (words[0], words[1..], true)
  {
    var line := ":" + Join(words, " ");
    FieldsOfJoin(words);
    assert line[1..] == Join(words, " ");
    TryParseCmdOfFields(line, words);
  }

  /** A ':' line whose fields are `words` is the command words[0] with the other words as arguments. */
  lemma TryParseCmdOfFields(line: string, words: seq<string>)
    requires |line| >= 1 && line[0] == ':' && Fields(line[1..]) == words && |words| > 0
    ensures TryParseCmd(line) == (words[0], words[1..], true)
  {
    assert line[..1] == ":";
    var r := TryParseCmd(line);
    assert [r.0] + r.1 == words;
    assert r.0 == ([r.0] + r.1)[0] && r.1 == ([r.0] + r.1)[1..];
  }

  /** A line that does not start with ':' is never a command, whatever its fields. */
  lemma NoColonNoCommand(line: string)
    requires line == [] || line[0] != ':'
    ensures !TryParseCmd(line).2
  {
  }

  /** A handler: called with the command name and its arguments, it returns an error message or nothing. */
  type Handler = (string, seq<string>) -> Option<string>

  /** The first key of `order` that the line starts with, preceded by ':'. */
  function FirstMatch(order: seq<string>, line: string): (r: Option<string>)
    ensures r.None? <==> forall i | 0 <= i < |order| :: !HasPrefix(line, ":" + order[i])
    ensures r.Some? ==> exists i | 0 <= i < |order| ::
              order[i] == r.value && HasPrefix(line, ":" + order[i])
              && forall j | 0 <= j < i :: !HasPrefix(line, ":" + order[j])
  {
    if order == [] then None
    else if HasPrefix(line, ":" + order[0]) then
      assert order[0] == order[0];
      Some(order[0])
    else
      var r := FirstMatch(order[1..], line);
      assert forall i | 1 <= i < |order| :: order[i] == order[1..][i - 1];
      if r.Some? then
        var i :| 0 <= i < |order[1..]| && order[1..][i] == r.value && HasPrefix(line, ":" + order[1..][i])
                 && forall j | 0 <= j < i :: !HasPrefix(line, ":" + order[1..][j]);
        assert order[i + 1] == r.value && forall j | 0 <= j < i + 1 :: !HasPrefix(line, ":" + order[j]);
        r
      else r
  }

  /** A key that is a prefix of another key shadows it when it comes first: ":q" runs for ":quit" too. */
  lemma ShorterKeyShadows(q: string, rest: string, others: seq<string>)
    ensures FirstMatch([q] + others, ":" + q + rest) == Some(q)
  {
    var line := ":" + q + rest;
    assert line[..|":" + q|] == ":" + q;
  }

  /** The search of runCommand's loop: the first key in map order that the line starts with, after ':'. */
  method FindHandler(order: seq<string>, line: string) returns (key: Option<string>)
    ensures key == FirstMatch(order, line)
  {
    var i := 0;
    while i < |order|
      invariant 0 <= i <= |order|
      invariant FirstMatch(order, line) == FirstMatch(order[i..], line)
    {
      if HasPrefix(line, ":" + order[i]) {
        assert order[i..] == [order[i]] + order[i + 1..];
        return Some(order[i]);
      }
      assert order[i..][1..] == order[i + 1..];
      i := i + 1;
    }
    return None;
  }

  /** One handler call made by runCommand: the handler's key, the command name and the arguments. */
  datatype Call = Call(key: string, cmdName: string, args: seq<string>)

  /** An enumeration of the keys of `cmds`, each once: an order Go's map iteration may take. */
  ghost predicate Enumerates(order: seq<string>, cmds: map<string, Handler>) {
    && (forall i, j | 0 <= i < j < |order| :: order[i] != order[j])
    && (forall k :: k in order <==> k in cmds)
  }

  /**
   * Prompt: `text` is the paragraph's text, `hasError` whether it shows an
   * error, and `cmds` the handlers by key.
   */
  class Prompt {
    var text: string
    var hasError: bool
    var cmds: map<string, Handler>

    ghost predicate Valid()
      reads this
    {
      hasError || IsPromptText(text)
    }

    /** The line typed so far. */
    function Line(): (r: string)
      reads this
      requires Valid() && !hasError
      ensures text == PromptText(r)
    {
      LineOf(text)
    }

    /** NewPrompt: an empty line, no error, no handlers. */
    constructor ()
      ensures Valid() && !hasError && Line() == "" && cmds == map[]
    {
      text := PromptText("");
      hasError := false;
      cmds := map[];
      new;
      LineOfPromptText("");
    }

    /** SetHandlers. */
    method SetHandlers(cmds: map<string, Handler>)
      modifies this`cmds
      ensures this.cmds == cmds
    {
      this.cmds := cmds;
    }

    /** updateText: `s` is appended to the line. */
    method UpdateText(s: string)
      requires Valid() && !hasError
      modifies this`text
      ensures Valid() && !hasError
      ensures Line() == old(Line()) + s
    {
      text := PROMPT_INITIAL + Line() + s + PROMPT_CURSOR;
      LineOfPromptText(old(Line()) + s);
    }

    /** setError: the text becomes the error in red. */
    method SetError(message: string)
      modifies this`text, this`hasError
      ensures Valid() && hasError && text == ErrorText(message)
    {
      text := ErrorText(message);
      hasError := true;
    }

    /** clearError: outside the error state nothing happens; in it, the prompt is emptied. */
    method ClearError() returns (cleared: bool)
      requires Valid()
      modifies this`text, this`hasError
      ensures Valid() && !hasError
      ensures cleared == old(hasError)
      ensures cleared ==> Line() == ""
      ensures !cleared ==> text == old(text)
    {
      if !hasError {
        return false;
      }
      text := PromptText("");
      hasError := false;
      LineOfPromptText("");
      return true;
    }

    /**
     * What runCommand leaves behind after running `line` from a prompt that
     * showed `before`: an empty line, a line that is not a command, and a
     * command no handler key matches each show their own error; otherwise
     * the first matching handler in `order` is called with the command name
     * and its arguments, and the error it returns, if any, is shown in place
     * of the unchanged prompt.
     */
    ghost predicate CommandRan(line: string, before: string, order: seq<string>, call: Option<Call>)
      reads this
      requires Enumerates(order, cmds)
    {
      var parsed := TryParseCmd(line);
      && (line == "" ==> call == None && hasError && text == ErrorText("empty line"))
      && (line != "" && !parsed.2 ==>
            call == None && hasError && text == ErrorText("\"" + line + "\" is not a valid command"))
      && (line != "" && parsed.2 && FirstMatch(order, line).None? ==>
            call == None && hasError && text == ErrorText("\"" + parsed.0 + "\" is not a valid command"))
      && (line != "" && parsed.2 && FirstMatch(order, line).Some? ==>
            var k := FirstMatch(order, line).value;
            && call == Some(Call(k, parsed.0, parsed.1))
            && match cmds[k](parsed.0, parsed.1)
               case Some(e) => hasError && text == ErrorText(e)
               case None => !hasError && text == before)
    }

    /**
     * runCommand. An empty line, a line that is not a command, and a command
     * no handler key matches are errors. Otherwise the handler of the first
     * key in `order` (the map order of this run) that the line starts with,
     * after ':', is called with the command name and its arguments, and the
     * error it returns, if any, is shown.
     */
    method RunCommand(order: seq<string>) returns (call: Option<Call>)
      requires Valid() && !hasError
      requires Enumerates(order, cmds)
      modifies this`text, this`hasError
      ensures Valid()
      ensures CommandRan(old(Line()), old(text), order, call)
    {
      var line := Line();
      if line == "" {
        SetError("empty line");
        return None;
      }
      var parsed := TryParseCmd(line);
      var cmdName, args, ok := parsed.0, parsed.1, parsed.2;
      if !ok {
        SetError("\"" + line + "\" is not a valid command");
        return None;
      }
      var key := FindHandler(order, line);
      if key.Some? {
        var err := cmds[key.value](cmdName, args);
        if err.Some? {
          SetError(err.value);
        }
        return Some(Call(key.value, cmdName, args));
      }
      SetError("\"" + cmdName + "\" is not a valid command");
      return None;
    }

    /**
     * OnKeyPressed. In the error state any key first empties the prompt and
     * ends the error state; Enter then does nothing more. Arrow keys are not
     * handled. Backspace drops the last character of a non-empty line, Space
     * and any other key are typed, Enter runs the line, and Escape or Ctrl-C
     * show the exit hint as an error.
     */
    method OnKeyPressed(key: string, order: seq<string>) returns (handled: bool, call: Option<Call>)
      requires Valid()
      requires Enumerates(order, cmds)
      modifies this`text, this`hasError
      ensures Valid()
      ensures handled <==> key !in {"<Up>", "<Down>", "<Left>", "<Right>"} || (old(hasError) && key == "<Enter>")
      ensures call.Some? ==> key == "<Enter>" && !old(hasError)
      ensures key == "<Enter>" && !old(hasError) ==> CommandRan(old(Line()), old(text), order, call)
      ensures old(hasError) && key == "<Enter>" ==> !hasError && Line() == ""
      ensures key in {"<Up>", "<Down>", "<Left>", "<Right>"} ==>
                if old(hasError) then !hasError && Line() == "" else text == old(text) && !hasError
      ensures key == "<Backspace>" ==>
                var before := if old(hasError) then "" else old(Line());
                !hasError && Line() == (if before == "" then "" else before[..|before| - 1])
      ensures key == "<Space>" ==> !hasError && Line() == (if old(hasError) then "" else old(Line())) + " "
      ensures key in {"<C-c>", "<Escape>"} ==> hasError && text == ErrorText("type \":q\" to exit")
      ensures key !in {"<Up>", "<Down>", "<Left>", "<Right>", "<Backspace>", "<Space>", "<Enter>", "<C-c>", "<Escape>"} ==>
                !hasError && Line() == (if old(hasError) then "" else old(Line())) + key
    {
      call := None;
      var cleared := ClearError();
      if cleared && key == "<Enter>" {
        return true, None;
      }
      if key == "<Up>" || key == "<Down>" || key == "<Left>" || key == "<Right>" {
        return false, None;
      } else if key == "<Backspace>" {
        if |text| > |PROMPT_INITIAL| + |PROMPT_CURSOR| {
          ghost var line := Line();
          text := text[..|text| - |PROMPT_CURSOR| - 1] + PROMPT_CURSOR;
          assert text == PromptText(line[..|line| - 1]);
          LineOfPromptText(line[..|line| - 1]);
        }
      } else if key == "<Space>" {
        UpdateText(" ");
      } else if key == "<Enter>" {
        call := RunCommand(order);
      } else if key == "<C-c>" || key == "<Escape>" {
        SetError("type \":q\" to exit");
      } else {
        UpdateText(key);
      }
      return true, call;
    }
  }
}
