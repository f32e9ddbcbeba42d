/**
 * The command interpreter of the terminal window in js/simple.js: String.prototype.trim
 * and the switch that turns a trimmed command into output lines.
 */
module Terminal {

  /** The characters String.prototype.trim strips: ECMAScript WhiteSpace and LineTerminator. */
  predicate IsSpace(c: char)
  {
    || c in {'\t', '\n', '\U{000B}', '\U{000C}', '\r', ' ', '\U{00A0}', '\U{1680}',
             '\U{2028}', '\U{2029}', '\U{202F}', '\U{205F}', '\U{3000}', '\U{FEFF}'}
    || ('\U{2000}' <= c <= '\U{200A}')
  }

  predicate AllSpace(s: string)
  {
    forall i :: 0 <= i < |s| ==> IsSpace(s[i])
  }

  /** Neither end of `s` is white space. */
  predicate Unpadded(s: string)
  {
    s == [] || (!IsSpace(s[0]) && !IsSpace(s[|s| - 1]))
  }

  /** The length of the white-space run at the start of `s`. */
  function LeadingSpace(s: string): (n: nat)
    ensures n <= |s| && AllSpace(s[..n])
    ensures n < |s| ==> !IsSpace(s[n])
  {
    if s == [] || !IsSpace(s[0]) then 0
    else
      var n := 1 + LeadingSpace(s[1..]);
      assert forall i :: 1 <= i < n ==> s[..n][i] == s[1..][..n - 1][i - 1];
      n
  }

  /** The length of the white-space run at the end of `s`. */
  function TrailingSpace(s: string): (n: nat)
    ensures n <= |s| && AllSpace(s[|s| - n..])
    ensures n < |s| ==> !IsSpace(s[|s| - 1 - n])
  {
    if s == [] || !IsSpace(s[|s| - 1]) then 0
    else
      var t := s[..|s| - 1];
      var n := 1 + TrailingSpace(t);
      assert s[|s| - n..] == t[|t| - (n - 1)..] + [s[|s| - 1]];
      n
  }

  /**
   * String.prototype.trim: `s` is a white-space prefix, then the result, then a
   * white-space suffix, and the result is not padded.
   */
  function Trim(s: string): (r: string)
    ensures Unpadded(r)
    ensures var p := LeadingSpace(s);
            && p + |r| <= |s| && s[p..p + |r|] == r
            && AllSpace(s[..p]) && AllSpace(s[p + |r|..])
  {
    var p := LeadingSpace(s);
    var t := s[p..];
    var r := t[..|t| - TrailingSpace(t)];
    assert s[p + |r|..] == t[|t| - TrailingSpace(t)..];
    r
  }

  lemma {:induction false} LeadingSpaceOfPadded(p: string, c: string)
    requires AllSpace(p) && c != [] && !IsSpace(c[0])
    ensures LeadingSpace(p + c) == |p|
    decreases |p|
  {
    if p != [] {
      var s := p + c;
      assert s[0] == p[0] && IsSpace(p[0]);
      assert s[1..] == p[1..] + c;
      assert AllSpace(p[1..]) by {
        forall i | 0 <= i < |p[1..]| ensures IsSpace(p[1..][i]) { assert p[1..][i] == p[i + 1]; }
      }
      LeadingSpaceOfPadded(p[1..], c);
      assert LeadingSpace(s) == 1 + LeadingSpace(s[1..]);
    }
  }

  lemma {:induction false} TrailingSpaceOfPadded(c: string, q: string)
    requires AllSpace(q) && c != [] && !IsSpace(c[|c| - 1])
    ensures TrailingSpace(c + q) == |q|
    decreases |q|
  {
    if q != [] {
      var s := c + q;
      assert s[|s| - 1] == q[|q| - 1] && IsSpace(q[|q| - 1]);
      assert s[..|s| - 1] == c + q[..|q| - 1];
      var front := q[..|q| - 1];
      assert AllSpace(front) by {
        forall i | 0 <= i < |front| ensures IsSpace(front[i]) { assert front[i] == q[i]; }
      }
      TrailingSpaceOfPadded(c, q[..|q| - 1]);
      assert TrailingSpace(s) == 1 + TrailingSpace(s[..|s| - 1]);
    }
  }

  /** Trimming strips exactly the white space around an unpadded command. */
  lemma TrimPadded(p: string, c: string, q: string)
    requires AllSpace(p) && AllSpace(q) && Unpadded(c)
    ensures Trim(p + c + q) == c
  {
    if c == [] {
      var s := p + q;
      assert p + c + q == s;
      assert AllSpace(s) by {
        forall i | 0 <= i < |s| ensures IsSpace(s[i]) {
          if i < |p| { assert s[i] == p[i]; } else { assert s[i] == q[i - |p|]; }
        }
      }
      assert LeadingSpace(s) == |s|;
    } else {
      var s := p + c + q;
      assert s == p + (c + q);
      LeadingSpaceOfPadded(p, c + q);
      var t := s[|p|..];
      assert t == c + q;
      TrailingSpaceOfPadded(c, q);
      assert t[..|t| - |q|] == c;
    }
  }

  /** Trimming twice is trimming once. */
  lemma TrimIdempotent(s: string)
    ensures Trim(Trim(s)) == Trim(s)
  {
    var r := Trim(s);
    TrimPadded([], r, []);
    assert [] + r + [] == r;
  }

  /** Trimming "  exit " gives "exit". */
  lemma TrimPaddedExit()
    ensures Trim("  exit ") == "exit"
  {
    TrimPadded("  ", "exit", " ");
    assert "  " + "exit" + " " == "  exit ";
  }

  /** A line appended to the terminal output (its HTML markup is not modelled). */
  datatype Line =
    | Echo(cmd: string)     // "ahlan-os:~$ <cmd>"
    | HelpText              // the list of commands
    | NeofetchText          // the system-information block
    | SecretText            // the answer to "about --secret"
    | NotFound(cmd: string) // "Command not found: <cmd>"

  /** The commands the switch knows. */
  predicate Known(cmd: string)
  {
    cmd in {"help", "clear", "exit", "neofetch", "about --secret"}
  }

  /**
   * The switch of terminalCommand: what a command does to the output that already
   * ends with its echo line. "clear" empties it; "exit" adds nothing; "help",
   * "neofetch" and "about --secret" append their answer; anything else appends
   * "Command not found".
   */
  function Answer(echoed: seq<Line>, cmd: string): (r: seq<Line>)
    ensures r == [] <==> cmd == "clear"  || (cmd == "exit" && echoed == [])
    ensures cmd != "clear" ==> |echoed| <= |r| <= |echoed| + 1 && r[..|echoed|] == echoed
    ensures cmd == "exit" ==> r == echoed
    ensures !Known(cmd) ==> r == echoed + [NotFound(cmd)]
    ensures cmd == "help" ==> r == echoed + [HelpText]
    ensures cmd == "neofetch" ==> r == echoed + [NeofetchText]
    ensures cmd == "about --secret" ==> r == echoed + [SecretText]
  {
    match cmd
    case "help" => echoed + [HelpText]
    case "clear" => []
    case "exit" => echoed
    case "neofetch" => echoed + [NeofetchText]
    case "about --secret" => echoed + [SecretText]
    case _ => echoed + [NotFound(cmd)]
  }

  /**
   * The output after a command: the echo line first, then the command's answer;
   * "clear" empties everything, the echo included; "exit" adds nothing after the echo.
   */
  function Respond(output: seq<Line>, cmd: string): (r: seq<Line>)
    ensures r == [] <==> cmd == "clear"
    ensures cmd != "clear" ==>
      |output| < |r| <= |output| + 2 && r[..|output|] == output && r[|output|] == Echo(cmd)
    ensures cmd == "exit" ==> r == output + [Echo(cmd)]
    ensures !Known(cmd) ==> r == output + [Echo(cmd), NotFound(cmd)]
    ensures cmd == "help" ==> r == output + [Echo(cmd), HelpText]
    ensures cmd == "neofetch" ==> r == output + [Echo(cmd), NeofetchText]
    ensures cmd == "about --secret" ==> r == output + [Echo(cmd), SecretText]
  {
    var echoed := output + [Echo(cmd)];
    var r := Answer(echoed, cmd);
    assert cmd != "clear" ==> r[..|output|] == echoed[..|output|];
    r
  }
}
