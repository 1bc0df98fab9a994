/**
 The loop of title normalisation after lowercasing and compatibility decomposition, which are an
 opaque first pass here: bracketed text goes, runs of other characters become one space.
 */
module Titles {
  import opened Basics
  import opened Splitting

  datatype State = State(out: string, closing: Option<char>)

  function Closing(c: char): Option<char> {
    match c
    case '(' => Some(')')
    case '[' => Some(']')
    case '{' => Some('}')
    case _ => None
  }

  function EndsWithSpace(s: string): bool {
    s != [] && s[|s| - 1] == ' '
  }

  function Step(st: State, c: char): State {
    if st.closing.Some? then
      if c == st.closing.value then st.(closing := None) else st
    else if Closing(c).Some? then st.(closing := Closing(c))
    else if Alphanumeric(c) then st.(out := st.out + [c])
    else if st.out != [] && !EndsWithSpace(st.out) then st.(out := st.out + [' '])
    else st
  }

  function Steps(st: State, text: string): State
    decreases |text|
  {
    if text == [] then st else Steps(Step(st, text[0]), text[1..])
  }

  function Trimmed(s: string): string {
    if EndsWithSpace(s) then s[..|s| - 1] else s
  }

  function Normalized(text: string): string {
    Trimmed(Steps(State([], None), text).out)
  }

  method NormalizeTitle(text: string) returns (normalized: string)
    ensures normalized == Normalized(text)
  {
    normalized := [];
    var closing: Option<char> := None;
    for i := 0 to |text|
      invariant Steps(State(normalized, closing), text[i..]) == Steps(State([], None), text)
    {
      var c := text[i];
      assert text[i..][1..] == text[i + 1..];
      if closing.Some? {
        if c == closing.value {
          closing := None;
        }
        continue;
      }
      closing := Closing(c);
      if closing.Some? {
        continue;
      }
      if Alphanumeric(c) {
        normalized := normalized + [c];
      } else if normalized != [] && normalized[|normalized| - 1] != ' ' {
        normalized := normalized + [' '];
      }
    }
    if normalized != [] && normalized[|normalized| - 1] == ' ' {
      normalized := normalized[..|normalized| - 1];
    }
  }

  /** Letters and digits in words separated by single spaces, with no space in front. */
  predicate Words(s: string) {
    forall i :: 0 <= i < |s| ==> WordAt(s, i)
  }

  predicate WordAt(s: string, i: nat)
    requires i < |s|
  {
    Alphanumeric(s[i]) || (s[i] == ' ' && i > 0 && s[i - 1] != ' ')
  }

  lemma OneMore(s: string, c: char)
    requires Words(s) && (Alphanumeric(c) || (c == ' ' && s != [] && !EndsWithSpace(s)))
    ensures Words(s + [c])
  {
    forall i | 0 <= i < |s| ensures WordAt(s + [c], i) {
      assert WordAt(s, i);
    }
  }

  lemma {:induction false} StepsKeepWords(st: State, text: string)
    requires Words(st.out)
    ensures Words(Steps(st, text).out)
    decreases |text|
  {
    if text != [] {
      if Step(st, text[0]).out != st.out {
        OneMore(st.out, if Alphanumeric(text[0]) then text[0] else ' ');
      }
      StepsKeepWords(Step(st, text[0]), text[1..]);
    }
  }

  lemma {:induction false} WordsAreKept(done: string, rest: string)
    requires Words(done + rest)
    ensures Steps(State(done, None), rest) == State(done + rest, None)
    decreases |rest|
  {
    if rest == [] {
      assert done + rest == done;
    } else {
      var c := rest[0];
      assert WordAt(done + rest, |done|) && (done + rest)[|done|] == c;
      if c == ' ' {
        assert done != [] && (done + rest)[|done| - 1] == done[|done| - 1];
      }
      assert done + [c] + rest[1..] == done + rest;
      WordsAreKept(done + [c], rest[1..]);
    }
  }

  /** The result is a list of words, and normalising it again changes nothing. */
  lemma NormalizingTwice(text: string)
    ensures var s := Normalized(text);
      Words(s) && !EndsWithSpace(s) && Normalized(s) == s
  {
    var out := Steps(State([], None), text).out;
    StepsKeepWords(State([], None), text);
    var s := Normalized(text);
    assert Words(out) && s == Trimmed(out);
    assert Words(s) by {
      forall i | 0 <= i < |s| ensures WordAt(s, i) {
        assert WordAt(out, i);
      }
    }
    if EndsWithSpace(out) {
      assert WordAt(out, |out| - 1);
    }
    assert [] + s == s;
    WordsAreKept([], s);
  }

  lemma {:induction false} StepsInTwo(st: State, a: string, b: string)
    ensures Steps(st, a + b) == Steps(Steps(st, a), b)
    decreases |a|
  {
    if a == [] {
      assert a + b == b;
    } else {
      assert (a + b)[0] == a[0] && (a + b)[1..] == a[1..] + b;
      StepsInTwo(Step(st, a[0]), a[1..], b);
    }
  }

  lemma {:induction false} InsideBrackets(st: State, inner: string)
    requires st.closing.Some? && st.closing.value !in inner
    ensures Steps(st, inner) == st
    decreases |inner|
  {
    if inner != [] {
      InsideBrackets(st, inner[1..]);
    }
  }

  /** A bracketed part never matters: whatever it says, it is as if it were not there. */
  lemma BracketsDoNotMatter(a: string, open: char, close: char, inner: string, b: string)
    requires (open == '(' && close == ')') || (open == '[' && close == ']') || (open == '{' && close == '}')
    requires close !in inner
    requires Steps(State([], None), a).closing.None?
    ensures Normalized(a + ([open] + inner + [close]) + b) == Normalized(a + b)
  {
    var start := State([], None);
    var st := Steps(start, a);
    var within := Step(st, open);
    StepsInTwo(start, a, b);
    StepsInTwo(start, a + ([open] + inner + [close]), b);
    StepsInTwo(start, a, [open] + inner + [close]);
    StepsInTwo(st, [open] + inner, [close]);
    StepsInTwo(st, [open], inner);
    InsideBrackets(within, inner);
    assert Steps(st, [open]) == within by {
      assert [open][1..] == [];
    }
    assert Steps(within, [close]) == st by {
      assert [close][1..] == [];
    }
  }

  // ---------- what normalisation computes ----------

  /** The text outside brackets; an opened bracket ends at the next closing one of its kind. */
  function Outside(text: string, closing: Option<char>): string
    decreases |text|
  {
    if text == [] then []
    else if closing.Some? then Outside(text[1..], if text[0] == closing.value then None else closing)
    else if Closing(text[0]).Some? then Outside(text[1..], Closing(text[0]))
    else [text[0]] + Outside(text[1..], None)
  }

  /** Everything but letters and digits separates words. */
  function Blanked(text: string): string
    decreases |text|
  {
    if text == [] then [] else [if Alphanumeric(text[0]) then text[0] else ' '] + Blanked(text[1..])
  }

  /** The words that are not empty, with one space between them. */
  function Spaced(words: seq<string>): string
    decreases |words|
  {
    if words == [] then []
    else
      var rest := Spaced(words[1..]);
      if words[0] == [] then rest else if rest == [] then words[0] else words[0] + " " + rest
  }

  lemma {:induction false} StepsOutside(st: State, text: string)
    ensures Steps(st, text).out == Steps(State(st.out, None), Outside(text, st.closing)).out
    decreases |text|
  {
    if text != [] {
      var next := Step(st, text[0]);
      StepsOutside(next, text[1..]);
      var rest := Outside(text[1..], next.closing);
      if st.closing.None? && Closing(text[0]).None? {
        assert ([text[0]] + rest)[1..] == rest;
      }
    }
  }

  /** The output before the next word begins. */
  function Glued(out: string): string {
    if out != [] && !EndsWithSpace(out) then out + " " else out
  }

  /** An output followed by more words. */
  function Followed(out: string, words: seq<string>): string {
    var rest := Spaced(words);
    if rest == [] then Trimmed(out) else Glued(out) + rest
  }

  predicate Plain(text: string) {
    forall c :: c in text ==> Closing(c).None?
  }

  lemma {:induction false} OutsideIsPlain(text: string, closing: Option<char>)
    ensures Plain(Outside(text, closing))
    decreases |text|
  {
    if text != [] {
      OutsideIsPlain(text[1..], if closing.Some? then if text[0] == closing.value then None else closing
                                else Closing(text[0]));
    }
  }

  lemma FollowedSkips(out: string, words: seq<string>)
    requires words != [] && words[0] == []
    ensures Followed(out, words) == Followed(out, words[1..])
    ensures Followed(Glued(out), words[1..]) == Followed(out, words[1..])
  {
    assert EndsWithSpace(out + " ") && (out + " ")[..|out|] == out;
  }

  lemma FollowedTakes(out: string, word: string, rest: seq<string>)
    requires word != [] && !EndsWithSpace(word)
    ensures Followed(Glued(out) + word, rest) == Followed(out, [word] + rest)
  {
    assert ([word] + rest)[1..] == rest;
    var g, all := Glued(out) + word, Spaced(rest);
    assert g[|g| - 1] == word[|word| - 1];
    if all != [] {
      assert g + " " + all == Glued(out) + (word + " " + all);
    }
  }

  ghost predicate NoSpaces(words: seq<string>) {
    forall w :: w in words ==> ' ' !in w
  }

  /** Normalising plain text from some output on: its first word goes on with the output, the others follow. */
  lemma {:induction false} StepsSplit(out: string, text: string)
    requires Plain(text)
    ensures var words := SplitOn(Blanked(text), ' ');
      Trimmed(Steps(State(out, None), text).out) == Followed(out + words[0], words[1..])
    decreases |text|
  {
    var words := SplitOn(Blanked(text), ' ');
    if text == [] {
      assert words == [[]] && out + [] == out;
    } else {
      var c, rest := text[0], text[1..];
      assert c in text && forall x :: x in rest ==> x in text;
      assert Blanked(text)[1..] == Blanked(rest);
      var more := SplitOn(Blanked(rest), ' ');
      if Alphanumeric(c) {
        StepsSplit(out + [c], rest);
        assert words == [[c] + more[0]] + more[1..];
        assert out + [c] + more[0] == out + words[0];
      } else {
        assert words == [[]] + more && words[1..] == more && out + words[0] == out;
        StepsSplit(Glued(out), rest);
        if more[0] == [] {
          assert Glued(out) + more[0] == Glued(out);
          FollowedSkips(out, more);
        } else {
          assert more[0][|more[0]| - 1] in more[0] && ' ' !in more[0];
          FollowedTakes(out, more[0], more[1..]);
          assert more == [more[0]] + more[1..];
        }
      }
    }
  }

  /**
   Normalising a title takes the text outside brackets, cuts it into its runs of letters and digits, and
   writes them with one space in between.
   */
  lemma NormalizedMeans(text: string)
    ensures Normalized(text) == Spaced(SplitOn(Blanked(Outside(text, None)), ' '))
  {
    var plain := Outside(text, None);
    var words := SplitOn(Blanked(plain), ' ');
    StepsOutside(State([], None), text);
    OutsideIsPlain(text, None);
    StepsSplit([], plain);
    assert [] + words[0] == words[0];
    if words[0] == [] {
      assert Glued([]) == [] && Trimmed([]) == [];
      assert [] + Spaced(words[1..]) == Spaced(words[1..]);
    } else {
      assert words[0][|words[0]| - 1] in words[0] && words[0] in words && ' ' !in words[0];
    }
  }

  lemma {:induction false} NothingInBrackets(text: string)
    requires forall c :: c in text ==> c != '(' && c != '[' && c != '{'
    ensures Outside(text, None) == text
    decreases |text|
  {
    if text != [] {
      assert text[0] in text && forall c :: c in text[1..] ==> c in text;
      NothingInBrackets(text[1..]);
      assert text == [text[0]] + text[1..];
    }
  }

  /** A title without opening brackets is just cut into its words. */
  lemma WithoutBrackets(text: string)
    requires forall c :: c in text ==> c != '(' && c != '[' && c != '{'
    ensures Normalized(text) == Spaced(SplitOn(Blanked(text), ' '))
  {
    NormalizedMeans(text);
    NothingInBrackets(text);
  }
}
