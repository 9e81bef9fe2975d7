/**
 * The selection menu of `main`: the registry `MCPS`, the parse of one answer, and the loop
 * that asks again until the answer names a server, quits, or the input ends.
 */
module Menu {

  import opened Text
  import Entries

  /** The keys of `MCPS`, in menu order (`list(MCPS.keys())`). */
  const ALL_KEYS: seq<string> := ["1", "2"]

  /** `key in MCPS`. */
  predicate IsMenuKey(key: string) {
    key == "1" || key == "2"
  }

  /** `MCPS[key]["name"]`. */
  function McpName(key: string): string
    requires IsMenuKey(key)
  {
    if key == "1" then "GymHappy Support" else "Metabase"
  }

  /** `MCPS[key]["config_key"]`, the server identifier that key's installer writes. */
  function McpConfigKey(key: string): string
    requires IsMenuKey(key)
  {
    if key == "1" then Entries.GYMHAPPY_KEY else Entries.METABASE_KEY
  }

  /** What one answer at `Your choice:` decides. */
  datatype Choice = Quit | Selected(keys: seq<string>) | Invalid

  /** `[c.strip() for c in pieces if c.strip() in MCPS]`. */
  function KeepMenuKeys(pieces: seq<string>): (r: seq<string>)
    ensures forall i :: 0 <= i < |r| ==> IsMenuKey(r[i])
    decreases |pieces|
  {
    if pieces == [] then []
    else
      var k := Strip(pieces[|pieces| - 1]);
      KeepMenuKeys(pieces[..|pieces| - 1]) + (if IsMenuKey(k) then [k] else [])
  }

  /** The menu's reading of an answer (already stripped by `prompt`). */
  function ParseChoice(answer: string): Choice {
    var choice := Upper(answer);
    if choice == "" || choice == "Q" then Quit
    else if choice == "A" then Selected(ALL_KEYS)
    else
      var selected := KeepMenuKeys(Split(choice, ','));
      if selected == [] then Invalid else Selected(selected)
  }

  /** The filter keeps the order of the pieces and every repetition. */
  lemma {:induction false} KeepMenuKeysAppend(a: seq<string>, b: seq<string>)
    ensures KeepMenuKeys(a + b) == KeepMenuKeys(a) + KeepMenuKeys(b)
    decreases |b|
  {
    if b == [] {
      assert a + b == a;
    } else {
      var b' := b[..|b| - 1];
      assert (a + b)[..|a + b| - 1] == a + b';
      assert (a + b)[|a + b| - 1] == b[|b| - 1];
      KeepMenuKeysAppend(a, b');
    }
  }

  /** A key is selected exactly when it is a menu key and some piece strips to it. */
  lemma {:induction false} InKeepMenuKeys(pieces: seq<string>, k: string)
    ensures k in KeepMenuKeys(pieces) <==>
      IsMenuKey(k) && exists i :: 0 <= i < |pieces| && Strip(pieces[i]) == k
    decreases |pieces|
  {
    if pieces != [] {
      var init, last := pieces[..|pieces| - 1], Strip(pieces[|pieces| - 1]);
      assert KeepMenuKeys(pieces) == KeepMenuKeys(init) + (if IsMenuKey(last) then [last] else []);
      InKeepMenuKeys(init, k);
      if exists i :: 0 <= i < |init| && Strip(init[i]) == k {
        var i :| 0 <= i < |init| && Strip(init[i]) == k;
        assert Strip(pieces[i]) == k;
      }
      if exists i :: 0 <= i < |pieces| && Strip(pieces[i]) == k {
        var i :| 0 <= i < |pieces| && Strip(pieces[i]) == k;
        if i < |init| { assert Strip(init[i]) == k; }
      }
    }
  }

  /** The menu quits exactly on an empty answer, `q` or `Q`. */
  lemma QuitIff(answer: string)
    ensures ParseChoice(answer) == Quit <==> answer == "" || answer == "q" || answer == "Q"
  {
    UpperEmpty(answer);
    UpperIsChar(answer, 'Q');
    UpperIsChar(answer, 'A');
    assert LowerChar('Q') == 'q';
  }

  /** `a` or `A` selects every server, in menu order. */
  lemma AllSelectsEveryServer(answer: string)
    requires answer == "a" || answer == "A"
    ensures ParseChoice(answer) == Selected(["1", "2"])
  {
    UpperIsChar(answer, 'A');
    assert LowerChar('A') == 'a';
  }

  /** A selection is never empty and names menu keys only. */
  lemma SelectionIsMenuKeys(answer: string)
    requires ParseChoice(answer).Selected?
    ensures var keys := ParseChoice(answer).keys;
      keys != [] && forall i :: 0 <= i < |keys| ==> IsMenuKey(keys[i])
  {
    if Upper(answer) != "A" {
      var keys := KeepMenuKeys(Split(Upper(answer), ','));
      assert ParseChoice(answer).keys == keys;
    }
  }

  /** None of the comma-separated pieces of the upper-cased answer strips to a menu key. */
  predicate NamesNoServer(answer: string) {
    var pieces := Split(Upper(answer), ',');
    forall i :: 0 <= i < |pieces| ==> !IsMenuKey(Strip(pieces[i]))
  }

  /** An answer is rejected exactly when it neither quits nor selects all, and names no server. */
  lemma InvalidIff(answer: string)
    ensures ParseChoice(answer) == Invalid <==> answer !in {"", "q", "Q", "a", "A"} && NamesNoServer(answer)
  {
    QuitIff(answer);
    UpperIsChar(answer, 'A');
    assert LowerChar('A') == 'a';
    var pieces := Split(Upper(answer), ',');
    if ParseChoice(answer) == Invalid {
      assert Upper(answer) != "A";
      assert answer != "a" && answer != "A";
      forall i | 0 <= i < |pieces| ensures !IsMenuKey(Strip(pieces[i])) {
        InKeepMenuKeys(pieces, Strip(pieces[i]));
      }
    } else if answer !in {"", "q", "Q", "a", "A"} {
      var keys := KeepMenuKeys(pieces);
      assert Upper(answer) != "" && Upper(answer) != "Q" && Upper(answer) != "A";
      assert ParseChoice(answer) == Selected(keys);
      assert keys != [];
      InKeepMenuKeys(pieces, keys[0]);
      var i :| 0 <= i < |pieces| && Strip(pieces[i]) == keys[0];
      assert IsMenuKey(Strip(pieces[i]));
    }
  }

  /** How `main`'s menu loop ends. */
  datatype MenuResult = Bye | EndOfInput | Chosen(keys: seq<string>)

  /**
   * How the menu loop ends on the typed lines, and how many of them it reads: rejected answers
   * are skipped, the first answer that quits or selects decides.
   */
  function MenuSpec(lines: seq<string>): (r: (MenuResult, nat))
    ensures r.1 <= |lines|
    ensures r.0.Chosen? ==> r.0.keys != [] && forall i :: 0 <= i < |r.0.keys| ==> IsMenuKey(r.0.keys[i])
    decreases |lines|
  {
    if lines == [] then (EndOfInput, 0)
    else
      var choice := ParseChoice(Strip(lines[0]));
      if choice.Invalid? then
        var rest := MenuSpec(lines[1..]);
        (rest.0, rest.1 + 1)
      else if choice.Quit? then (Bye, 1)
      else
        SelectionIsMenuKeys(Strip(lines[0]));
        (Chosen(choice.keys), 1)
  }

  /** One answer of the menu loop: a rejected answer passes the decision on to the next line. */
  lemma MenuSpecStep(rest: seq<string>)
    requires rest != []
    ensures var choice := ParseChoice(Strip(rest[0]));
      MenuSpec(rest) ==
        if choice.Invalid? then (MenuSpec(rest[1..]).0, MenuSpec(rest[1..]).1 + 1)
        else if choice.Quit? then (Bye, 1)
        else (Chosen(choice.keys), 1)
  {
  }

  /**
   * The menu loop's stopping rule: every answer before the deciding one was rejected; the loop
   * stops at the first answer that quits or selects, or reads every line when all are rejected.
   */
  lemma {:induction false} MenuSpecFacts(lines: seq<string>)
    ensures var r, used := MenuSpec(lines).0, MenuSpec(lines).1;
      && (forall i :: 0 <= i < used - 1 ==> ParseChoice(Strip(lines[i])) == Invalid)
      && (r.EndOfInput? <==> used == |lines| && forall i :: 0 <= i < |lines| ==> ParseChoice(Strip(lines[i])) == Invalid)
      && (r.Bye? ==> 0 < used && ParseChoice(Strip(lines[used - 1])) == Quit)
      && (r.Chosen? ==> 0 < used && ParseChoice(Strip(lines[used - 1])) == Selected(r.keys))
    decreases |lines|
  {
    if lines != [] {
      MenuSpecStep(lines);
      var rest := lines[1..];
      MenuSpecFacts(rest);
      if ParseChoice(Strip(lines[0])).Invalid? {
        var used := MenuSpec(rest).1;
        assert MenuSpec(lines).1 == used + 1 && MenuSpec(lines).0 == MenuSpec(rest).0;
        forall i | 0 <= i < used ensures ParseChoice(Strip(lines[i])) == Invalid {
          if i > 0 { assert lines[i] == rest[i - 1]; }
        }
        if used > 0 { assert lines[used] == rest[used - 1]; }
        if forall i :: 0 <= i < |lines| ==> ParseChoice(Strip(lines[i])) == Invalid {
          forall i | 0 <= i < |rest| ensures ParseChoice(Strip(rest[i])) == Invalid {
            assert rest[i] == lines[i + 1];
          }
        }
      }
    }
  }

  /**
   * The menu loop over the lines the operator types: each rejected answer asks again; the
   * first answer that quits or selects ends the loop; running out of input exits.
   */
  method MenuLoop(lines: seq<string>) returns (r: MenuResult, used: nat)
    ensures r == MenuSpec(lines).0 && used == MenuSpec(lines).1
    ensures used <= |lines|
    ensures forall i :: 0 <= i < used - 1 ==> ParseChoice(Strip(lines[i])) == Invalid
    ensures r.EndOfInput? <==> used == |lines| && forall i :: 0 <= i < |lines| ==> ParseChoice(Strip(lines[i])) == Invalid
    ensures r.Bye? ==> 0 < used && ParseChoice(Strip(lines[used - 1])) == Quit
    ensures r.Chosen? ==> 0 < used && ParseChoice(Strip(lines[used - 1])) == Selected(r.keys)
  {
    used := 0;
    while used < |lines|
      invariant used <= |lines|
      invariant MenuSpec(lines).0 == MenuSpec(lines[used..]).0
      invariant MenuSpec(lines).1 == MenuSpec(lines[used..]).1 + used
    {
      var answer := Strip(lines[used]);
      var choice := ParseChoice(answer);
      MenuSpecStep(lines[used..]);
      assert lines[used..][0] == lines[used] && lines[used..][1..] == lines[used + 1..];
      used := used + 1;
      if !choice.Invalid? {
        r := if choice.Quit? then Bye else Chosen(choice.keys);
        MenuSpecFacts(lines);
        return;
      }
    }
    assert lines[used..] == [];
    r := EndOfInput;
    MenuSpecFacts(lines);
  }

  /** Two pieces that strip to menu keys are both kept, in order. */
  lemma KeepTwo(p: string, q: string)
    requires IsMenuKey(Strip(p)) && IsMenuKey(Strip(q))
    ensures KeepMenuKeys([p, q]) == [Strip(p), Strip(q)]
  {
    assert [p, q][..1] == [p] && [p][..0] == [];
    assert KeepMenuKeys([p]) == [Strip(p)];
  }

  /** An answer that is already upper case and none of the single-letter commands selects its menu keys. */
  lemma ParseChoiceSelected(s: string)
    requires Upper(s) == s && s != "" && s != "Q" && s != "A"
    requires KeepMenuKeys(Split(s, ',')) != []
    ensures ParseChoice(s) == Selected(KeepMenuKeys(Split(s, ',')))
  {
  }

  /** The pieces of `a, b` keep the two keys, in order. */
  lemma KeepKeyPair(a: char, b: char)
    requires IsMenuKey([a]) && IsMenuKey([b])
    ensures KeepMenuKeys(Split([a, ',', ' ', b], ',')) == [[a], [b]]
  {
    var s := [a, ',', ' ', b];
    assert Split(s, ',') == [[a], [' ', b]] by {
      SplitAtSep([a], ',', [' ', b]);
      SplitWithoutSep([' ', b], ',');
      assert [a] + [','] + [' ', b] == s;
    }
    StripUnchanged([a]);
    assert Strip([' ', b]) == [b] by {
      assert [' ', b][1..] == [b];
      StripUnchanged([b]);
    }
    KeepTwo([a], [' ', b]);
  }

  /** Two menu keys separated by `, ` are installed in the order typed. */
  lemma ParseKeyPair(a: char, b: char)
    requires IsMenuKey([a]) && IsMenuKey([b])
    ensures ParseChoice([a, ',', ' ', b]) == Selected([[a], [b]])
  {
    var s := [a, ',', ' ', b];
    UpperUnchanged(s);
    KeepKeyPair(a, b);
    ParseChoiceSelected(s);
  }

  /** A lone `1` is kept by the filter. */
  lemma KeepGymHappyKey()
    ensures KeepMenuKeys(["1"]) == ["1"]
  {
    StripUnchanged("1");
    assert ["1"][..0] == [];
  }

  /** `1` selects GymHappy Support alone. */
  lemma ExampleSingleKey()
    ensures ParseChoice("1") == Selected(["1"])
  {
    UpperUnchanged("1");
    SplitWithoutSep("1", ',');
    KeepGymHappyKey();
    ParseChoiceSelected("1");
  }

  /** `2, 1` installs Metabase first, then GymHappy Support. */
  lemma ExampleOrderKept()
    ensures ParseChoice("2, 1") == Selected(["2", "1"])
  {
    ParseKeyPair('2', '1');
  }
}
