/** Cutting a remote URL template into literal text, escaped dollars and environment
    references (gat-core/src/endpoint.rs, gat-core/src/name.rs). */
module Template {
  import opened Text

  datatype Token = Literal(text: string) | EscapedDollar | Reference(name: string)

  /** Byte offsets of the dollar that starts the bad reference. */
  datatype SyntaxError = UnterminatedReference(offset: nat) | InvalidVariableName(offset: nat)

  predicate IsNameStart(c: char)
  {
    'a' <= c <= 'z' || 'A' <= c <= 'Z' || c == '_'
  }

  predicate IsNameChar(c: char)
  {
    IsNameStart(c) || '0' <= c <= '9'
  }

  /** A letter or underscore, then letters, digits and underscores. */
  predicate IsEnvironmentName(name: string)
  {
    name != "" && IsNameStart(name[0]) && forall i :: 1 <= i < |name| ==> IsNameChar(name[i])
  }

  method ParseEnvironmentName(value: string) returns (r: Option<string>)
    ensures r == if IsEnvironmentName(value) then Some(value) else None
  {
    if value == "" || !IsNameStart(value[0]) {
      return None;
    }
    for i := 1 to |value|
      invariant forall k :: 1 <= k < i ==> IsNameChar(value[k])
    {
      if !IsNameChar(value[i]) {
        return None;
      }
    }
    return Some(value);
  }

  // -------------------------------------------------- what a tokenization is

  /** The text a token stands for. */
  function SourceOf(token: Token): string
  {
    match token
    case Literal(text) => text
    case EscapedDollar => "$$"
    case Reference(name) => "${" + name + "}"
  }

  function Source(tokens: seq<Token>): string
  {
    if tokens == [] then "" else SourceOf(tokens[0]) + Source(tokens[1..])
  }

  /** A token that may stand at a dollar, in front of `rest`: a lone dollar only where it
      starts nothing longer. */
  predicate DollarToken(token: Token, rest: string)
  {
    match token
    case Literal(text) => text == "$" && !("$" <= rest) && !("{" <= rest)
    case EscapedDollar => true
    case Reference(name) => IsEnvironmentName(name)
  }

  /** `text` starts with plain text free of dollars and then a token at a dollar. */
  predicate StepAt(text: string, plain: Token, token: Token)
  {
    && plain.Literal? && '$' !in plain.text
    && plain.text + SourceOf(token) <= text
    && DollarToken(token, text[|plain.text| + |SourceOf(token)|..])
  }

  /** The tokens, in pairs of plain text and a token at a dollar, cover `text` up to `k`. */
  predicate Leads(tokens: seq<Token>, text: string, k: nat)
  {
    if tokens == [] then k == 0
    else
      && |tokens| >= 2
      && StepAt(text, tokens[0], tokens[1])
      && var n := |SourceOf(tokens[0])| + |SourceOf(tokens[1])|;
      && n <= k && Leads(tokens[2..], text[n..], k - n)
  }

  /** The tokens of a whole template: pairs, and then text free of dollars. */
  predicate Tokenization(tokens: seq<Token>, text: string)
  {
    && tokens != []
    && var pairs, last := tokens[..|tokens| - 1], tokens[|tokens| - 1];
    && last.Literal? && '$' !in last.text && |last.text| <= |text|
    && Leads(pairs, text, |text| - |last.text|)
    && text[|text| - |last.text|..] == last.text
  }

  /** The first dollar the scan cannot pass: a reference left open or wrongly named. */
  ghost predicate Broken(text: string, error: SyntaxError)
  {
    exists tokens, j: nat, k: nat :: BrokenAt(text, error, tokens, j, k)
  }

  predicate BrokenAt(text: string, error: SyntaxError, tokens: seq<Token>, j: nat, k: nat)
  {
    && Leads(tokens, text, j) && j <= k <= |text| && '$' !in text[j..k]
    && BadReference(text[k..], ByteLen(text[..k]), error)
  }

  predicate BadReference(rest: string, offset: nat, error: SyntaxError)
  {
    && "${" <= rest
    && match IndexOf(rest[2..], '}')
       case None => error == UnterminatedReference(offset)
       case Some(close) => error == InvalidVariableName(offset) && !IsEnvironmentName(rest[2..][..close])
  }

  // -------------------------------------------------------------- tokenizing

  method TokenizeTemplate(input: string) returns (r: Result<seq<Token>, SyntaxError>)
    ensures r.Ok? ==> Tokenization(r.value, input)
    ensures r.Err? ==> Broken(input, r.error)
  {
    hide *;
    var tokens: seq<Token> := [];
    var offset: nat := 0;
    LeadsNowhere(input);
    while '$' in input[offset..]
      invariant offset <= |input| && Leads(tokens, input, offset)
      decreases |input| - offset
    {
      var dollar := IndexOf(input[offset..], '$').value;
      PlainPart(input, tokens, offset, dollar);
      ghost var at, before := offset, tokens;
      tokens := tokens + [Literal(input[offset..offset + dollar])];
      offset := offset + dollar;
      var rest := input[offset..];
      if "$$" <= rest {
        TurnDouble(input, before, at, offset);
        tokens := tokens + [EscapedDollar];
        offset := offset + 2;
      } else if "${" <= rest {
        var body := rest[2..];
        var close := IndexOf(body, '}');
        if close.None? {
          TurnOpen(input, before, at, offset);
          return Err(UnterminatedReference(ByteLen(input[..offset])));
        }
        var name := ParseEnvironmentName(body[..close.value]);
        if name.None? {
          TurnMisnamed(input, before, at, offset, close.value);
          return Err(InvalidVariableName(ByteLen(input[..offset])));
        }
        TurnReference(input, before, at, offset, close.value);
        tokens := tokens + [Reference(name.value)];
        offset := offset + close.value + 3;
      } else {
        TurnLone(input, before, at, offset);
        tokens := tokens + [Literal("$")];
        offset := offset + 1;
      }
    }
    Finished(tokens, input, offset);
    tokens := tokens + [Literal(input[offset..])];
    return Ok(tokens);
  }

  /** The loop at a dollar: `tokens` lead to `at`, and plain text from there to the dollar. */
  predicate AtDollar(input: string, tokens: seq<Token>, at: nat, offset: nat)
  {
    && at <= offset < |input| && Leads(tokens, input, at)
    && '$' !in input[at..offset] && input[offset] == '$'
  }

  lemma {:induction false} TurnDouble(input: string, tokens: seq<Token>, at: nat, offset: nat)
    requires at <= offset < |input| && AtDollar(input, tokens, at, offset) && "$$" <= input[offset..]
    ensures offset + 2 <= |input|
    ensures Leads(tokens + [Literal(input[at..offset])] + [EscapedDollar], input, offset + 2)
  {
    hide Leads;
    assert input[offset..offset + 2] == "$$";
    AfterDollar(input, tokens, at, Literal(input[at..offset]), EscapedDollar, offset + 2);
  }

  lemma {:induction false} TurnLone(input: string, tokens: seq<Token>, at: nat, offset: nat)
    requires at <= offset < |input| && AtDollar(input, tokens, at, offset) && !("$$" <= input[offset..]) &&
             !("${" <= input[offset..])
    ensures Leads(tokens + [Literal(input[at..offset])] + [Literal("$")], input, offset + 1)
  {
    hide Leads;
    assert input[offset..offset + 1] == "$";
    assert input[offset..][1..] == input[offset + 1..];
    AfterDollar(input, tokens, at, Literal(input[at..offset]), Literal("$"), offset + 1);
  }

  lemma {:induction false} TurnReference(input: string, tokens: seq<Token>, at: nat, offset: nat, close: nat)
    requires at <= offset < |input| && AtDollar(input, tokens, at, offset) && "${" <= input[offset..]
    requires IndexOf(input[offset..][2..], '}') == Some(close) && IsEnvironmentName(input[offset..][2..][..close])
    ensures offset + close + 3 <= |input|
    ensures Leads(tokens + [Literal(input[at..offset])] + [Reference(input[offset..][2..][..close])],
                  input, offset + close + 3)
  {
    hide Leads, IsEnvironmentName, IndexOf;
    var name := input[offset..][2..][..close];
    ReferenceText(input[offset..], close, name);
    hide SourceOf;
    assert input[offset..][..close + 3] == input[offset..offset + close + 3];
    AfterDollar(input, tokens, at, Literal(input[at..offset]), Reference(name), offset + close + 3);
  }

  lemma {:induction false} ReferenceText(rest: string, close: nat, name: string)
    requires "${" <= rest && 2 + close < |rest| && rest[2..][close] == '}' && name == rest[2..][..close]
    ensures rest[..close + 3] == SourceOf(Reference(name))
  {
  }

  lemma {:induction false} TurnOpen(input: string, tokens: seq<Token>, at: nat, offset: nat)
    requires at <= offset < |input| && AtDollar(input, tokens, at, offset) && "${" <= input[offset..]
    requires IndexOf(input[offset..][2..], '}') == None
    ensures Broken(input, UnterminatedReference(ByteLen(input[..offset])))
  {
    hide Leads, ByteLen;
    BreaksOff(input, UnterminatedReference(ByteLen(input[..offset])), tokens, at, offset);
  }

  lemma {:induction false} TurnMisnamed(input: string, tokens: seq<Token>, at: nat, offset: nat, close: nat)
    requires at <= offset < |input| && AtDollar(input, tokens, at, offset) && "${" <= input[offset..]
    requires IndexOf(input[offset..][2..], '}') == Some(close) && !IsEnvironmentName(input[offset..][2..][..close])
    ensures Broken(input, InvalidVariableName(ByteLen(input[..offset])))
  {
    hide Leads, ByteLen, IsEnvironmentName;
    BreaksOff(input, InvalidVariableName(ByteLen(input[..offset])), tokens, at, offset);
  }

  lemma {:induction false} LeadsNowhere(input: string)
    ensures Leads([], input, 0)
  {
  }

  lemma {:induction false} PlainPart(input: string, tokens: seq<Token>, at: nat, dollar: nat)
    requires at <= |input| && Leads(tokens, input, at)
    requires at + dollar < |input| && input[at..][dollar] == '$' && '$' !in input[at..][..dollar]
    ensures AtDollar(input, tokens, at, at + dollar)
  {
    assert input[at..][..dollar] == input[at..at + dollar];
  }

  lemma {:induction false} Finished(tokens: seq<Token>, input: string, offset: nat)
    requires offset <= |input| && Leads(tokens, input, offset) && '$' !in input[offset..]
    ensures Tokenization(tokens + [Literal(input[offset..])], input)
  {
    hide Leads;
    assert (tokens + [Literal(input[offset..])])[..|tokens|] == tokens;
  }

  lemma {:induction false} BreaksOff(input: string, error: SyntaxError, tokens: seq<Token>, j: nat, k: nat)
    requires Leads(tokens, input, j) && j <= k <= |input| && '$' !in input[j..k]
    requires BadReference(input[k..], ByteLen(input[..k]), error)
    ensures Broken(input, error)
  {
    hide Leads, BadReference;
    assert BrokenAt(input, error, tokens, j, k);
  }

  /** One turn of the loop: plain text from `at`, then `token` up to `next`. */
  lemma {:induction false} AfterDollar(input: string, tokens: seq<Token>, at: nat, plain: Token, token: Token,
                                       next: nat)
    requires at <= |input| && Leads(tokens, input, at)
    requires plain.Literal? && '$' !in plain.text && at + |plain.text| <= next <= |input|
    requires plain.text == input[at..at + |plain.text|]
    requires SourceOf(token) == input[at + |plain.text|..next] && DollarToken(token, input[next..])
    ensures Leads(tokens + [plain] + [token], input, next)
  {
    hide Leads, IsEnvironmentName;
    var text := input[at..];
    assert plain.text + SourceOf(token) == text[..next - at];
    assert text[next - at..] == input[next..];
    LeadsSnoc(tokens, input, at, plain, token, next - at);
    assert tokens + [plain, token] == tokens + [plain] + [token];
  }

  lemma {:induction false} LeadsSnoc(tokens: seq<Token>, text: string, k: nat, plain: Token, token: Token, n: nat)
    requires Leads(tokens, text, k) && k <= |text|
    requires StepAt(text[k..], plain, token) && n == |SourceOf(plain)| + |SourceOf(token)|
    ensures Leads(tokens + [plain, token], text, k + n)
  {
    hide StepAt, SourceOf;
    var all := tokens + [plain, token];
    if tokens == [] {
      assert all[2..] == [] && text[0..] == text;
    } else {
      var m := |SourceOf(tokens[0])| + |SourceOf(tokens[1])|;
      assert all[2..] == tokens[2..] + [plain, token];
      StepInside(text, tokens[0], tokens[1]);
      assert text[m..][k - m..] == text[k..];
      LeadsSnoc(tokens[2..], text[m..], k - m, plain, token, n);
    }
  }

  lemma {:induction false} StepInside(text: string, plain: Token, token: Token)
    requires StepAt(text, plain, token)
    ensures |SourceOf(plain)| + |SourceOf(token)| <= |text|
    ensures SourceOf(plain) + SourceOf(token) == text[..|SourceOf(plain)| + |SourceOf(token)|]
    ensures SourceOf(token) != "" && SourceOf(token)[0] == '$'
  {
  }

  // ------------------------------------------------------------- losslessness

  lemma {:induction false} LeadsSource(tokens: seq<Token>, text: string, k: nat)
    requires Leads(tokens, text, k)
    ensures k <= |text| && Source(tokens) == text[..k]
  {
    hide StepAt, SourceOf;
    if tokens != [] {
      var m := |SourceOf(tokens[0])| + |SourceOf(tokens[1])|;
      StepInside(text, tokens[0], tokens[1]);
      LeadsSource(tokens[2..], text[m..], k - m);
      assert tokens[1..][1..] == tokens[2..] && tokens[1..][0] == tokens[1];
      assert text[..k] == text[..m] + text[m..][..k - m];
    }
  }

  lemma {:induction false} SourceConcat(a: seq<Token>, b: seq<Token>)
    ensures Source(a + b) == Source(a) + Source(b)
  {
    hide SourceOf;
    if a == [] {
      assert a + b == b;
    } else {
      assert (a + b)[1..] == a[1..] + b;
      SourceConcat(a[1..], b);
    }
  }

  lemma {:induction false} SourceOne(token: Token)
    ensures Source([token]) == SourceOf(token)
  {
    assert [token][1..] == [];
  }

  /** Tokenizing loses nothing: the tokens' source is the input. */
  lemma {:induction false} TokensRestoreInput(tokens: seq<Token>, text: string)
    requires Tokenization(tokens, text)
    ensures Source(tokens) == text
  {
    hide Leads, Source;
    var pairs, last := tokens[..|tokens| - 1], tokens[|tokens| - 1];
    LeadsSource(pairs, text, |text| - |last.text|);
    SourceConcat(pairs, [last]);
    SourceOne(last);
    assert tokens == pairs + [last];
  }

  // --------------------------------------------------------------- uniqueness

  lemma {:induction false} FirstDollar(a: string, b: string, x: string, y: string)
    requires a + x == b + y && '$' !in a && '$' !in b
    requires x != "" && x[0] == '$' && y != "" && y[0] == '$'
    ensures a == b && x == y
  {
    assert (a + x)[..|a|] == a && (b + y)[..|b|] == b;
    IndexOfIs(a + x, '$', |a|);
    IndexOfIs(b + y, '$', |b|);
    assert x == (a + x)[|a|..] && y == (b + y)[|b|..];
  }

  /** At a dollar, what follows leaves one token only. */
  lemma {:induction false} OneToken(s: Token, t: Token, x: string, y: string)
    requires SourceOf(s) + x == SourceOf(t) + y && DollarToken(s, x) && DollarToken(t, y)
    ensures s == t && x == y
  {
    var text := SourceOf(s) + x;
    if text[1..] == "" || (text[1] != '$' && text[1] != '{') {
      assert s == Literal("$") && t == Literal("$");
      assert x == text[1..] && y == text[1..];
    } else if text[1] == '$' {
      assert s.EscapedDollar? && t.EscapedDollar?;
      assert x == text[2..] && y == text[2..];
    } else {
      OneName(s.name, t.name, x, y, text);
    }
  }

  lemma {:induction false} OneName(m: string, n: string, x: string, y: string, text: string)
    requires IsEnvironmentName(m) && IsEnvironmentName(n)
    requires text == "${" + m + "}" + x && text == "${" + n + "}" + y
    ensures m == n && x == y
  {
    assert forall i :: 0 <= i < |m| ==> text[i + 2] == m[i] && m[i] != '}';
    assert forall i :: 0 <= i < |n| ==> text[i + 2] == n[i] && n[i] != '}';
    assert text[|m| + 2] == '}' && text[|n| + 2] == '}';
    assert |m| == |n|;
    assert m == text[2..|m| + 2] && n == text[2..|n| + 2];
    assert x == text[|m| + 3..] && y == text[|n| + 3..];
  }

  lemma {:induction false} OneStep(text: string, p: Token, s: Token, q: Token, t: Token)
    requires StepAt(text, p, s) && StepAt(text, q, t)
    ensures p == q && s == t
  {
    var i, j := |SourceOf(p)| + |SourceOf(s)|, |SourceOf(q)| + |SourceOf(t)|;
    StepInside(text, p, s);
    StepInside(text, q, t);
    SplitText(text, p.text, SourceOf(s), i);
    SplitText(text, q.text, SourceOf(t), j);
    FirstDollar(p.text, q.text, SourceOf(s) + text[i..], SourceOf(t) + text[j..]);
    hide IsEnvironmentName;
    OneToken(s, t, text[i..], text[j..]);
  }

  lemma {:induction false} SplitText(text: string, a: string, b: string, n: nat)
    requires n == |a| + |b| <= |text| && a + b == text[..n]
    ensures text == a + (b + text[n..])
  {
    assert text == text[..n] + text[n..];
  }

  /** Two scans of one text agree as far as both go. */
  lemma {:induction false} LeadsAgree(a: seq<Token>, b: seq<Token>, text: string, i: nat, j: nat)
    requires Leads(a, text, i) && Leads(b, text, j) && |a| <= |b|
    ensures a == b[..|a|] && i <= j <= |text|
    ensures if |a| == |b| then i == j else More(text, i)
    decreases |a|
  {
    hide StepAt, SourceOf, DollarToken, More;
    if b != [] {
      var n := |SourceOf(b[0])| + |SourceOf(b[1])|;
      StepInside(text, b[0], b[1]);
      if a == [] {
        LeadsSource(b, text, j);
        FirstStands(text, b[0], b[1]);
      } else {
        OneStep(text, a[0], a[1], b[0], b[1]);
        LeadsAgree(a[2..], b[2..], text[n..], i - n, j - n);
        SameStart(a, b);
        MoreLater(text, n, i);
      }
    }
  }

  lemma {:induction false} SameStart(a: seq<Token>, b: seq<Token>)
    requires 2 <= |a| <= |b| && a[0] == b[0] && a[1] == b[1] && a[2..] == b[2..][..|a| - 2]
    ensures a == b[..|a|]
  {
    assert a == a[..2] + a[2..] && b[..|a|] == b[..2] + b[2..][..|a| - 2];
  }

  /** A token at a dollar follows plain text from `i`. */
  ghost predicate More(text: string, i: nat)
  {
    exists token, m: nat :: DollarStands(text, i, m, token)
  }

  /** After plain text from `i`, a token stands at the dollar `m`. */
  predicate DollarStands(text: string, i: nat, m: nat, token: Token)
  {
    && i <= m < |text| && '$' !in text[i..m] && text[m] == '$' && m + |SourceOf(token)| <= |text|
    && text[m..m + |SourceOf(token)|] == SourceOf(token)
    && DollarToken(token, text[m + |SourceOf(token)|..])
  }

  lemma {:induction false} FirstStands(text: string, plain: Token, token: Token)
    requires StepAt(text, plain, token)
    ensures More(text, 0)
  {
    StepInside(text, plain, token);
    hide IsEnvironmentName, SourceOf;
    TakeTwo(text, plain.text, SourceOf(token));
    assert DollarStands(text, 0, |plain.text|, token);
  }

  lemma {:induction false} TakeTwo(text: string, a: string, b: string)
    requires |a| + |b| <= |text| && a + b == text[..|a| + |b|] && b != ""
    ensures text[0..|a|] == a && text[|a|..|a| + |b|] == b && text[|a|] == b[0]
  {
    assert (a + b)[..|a|] == a && (a + b)[|a|..] == b;
  }

  lemma {:induction false} MoreLater(text: string, n: nat, i: nat)
    requires n <= i && n <= |text|
    ensures More(text[n..], i - n) ==> More(text, i)
  {
    if More(text[n..], i - n) {
      var token, m: nat :| DollarStands(text[n..], i - n, m, token);
      StandsLater(text, n, i, m, token);
    }
  }

  lemma {:induction false} StandsLater(text: string, n: nat, i: nat, m: nat, token: Token)
    requires n <= i && n <= |text| && DollarStands(text[n..], i - n, m, token)
    ensures DollarStands(text, i, m + n, token)
  {
    hide SourceOf, DollarToken;
    var k := |SourceOf(token)|;
    assert text[n..][i - n..m] == text[i..m + n];
    assert text[n..][m..m + k] == text[m + n..m + n + k];
    assert text[n..][m + k..] == text[m + n + k..];
  }

  /** A text has at most one tokenization. */
  lemma {:induction false} TokenizationUnique(a: seq<Token>, b: seq<Token>, text: string)
    requires Tokenization(a, text) && Tokenization(b, text)
    ensures a == b
  {
    hide *;
    if |a| <= |b| {
      UniqueInOrder(a, b, text);
    } else {
      UniqueInOrder(b, a, text);
    }
  }

  lemma {:induction false} UniqueInOrder(a: seq<Token>, b: seq<Token>, text: string)
    requires Tokenization(a, text) && Tokenization(b, text) && |a| <= |b|
    ensures a == b
  {
    hide Leads, More;
    var i, j := |text| - |a[|a| - 1].text|, |text| - |b[|b| - 1].text|;
    LeadsAgree(a[..|a| - 1], b[..|b| - 1], text, i, j);
    NothingMore(text, i);
    assert a == a[..|a| - 1] + [a[|a| - 1]] && b == b[..|b| - 1] + [b[|b| - 1]];
  }

  lemma {:induction false} NothingMore(text: string, i: nat)
    requires i <= |text| && '$' !in text[i..]
    ensures !More(text, i)
  {
  }

  /** No token stands at a bad reference. */
  lemma {:induction false} BadHasNoToken(text: string, k: nat, token: Token, offset: nat, error: SyntaxError)
    requires k + |SourceOf(token)| <= |text| && text[k..k + |SourceOf(token)|] == SourceOf(token)
    requires DollarToken(token, text[k + |SourceOf(token)|..])
    ensures !BadReference(text[k..], offset, error)
  {
    if token.Reference? {
      var rest, name := text[k..], token.name;
      assert |SourceOf(token)| == |name| + 3;
      assert rest[..|name| + 3] == text[k..k + |SourceOf(token)|];
      BracedName(rest, name);
      IndexOfIs(rest[2..], '}', |name|);
    } else {
      NoBrace(text, k, token);
    }
  }

  lemma {:induction false} BracedName(rest: string, name: string)
    requires |name| + 3 <= |rest| && rest[..|name| + 3] == "${" + name + "}"
    ensures rest[2..][..|name|] == name && rest[2..][|name|] == '}'
  {
    var head := rest[..|name| + 3];
    assert head[2..|name| + 2] == name && head[|name| + 2] == '}';
    assert rest[2..][..|name|] == head[2..|name| + 2];
  }

  lemma {:induction false} NoBrace(text: string, k: nat, token: Token)
    requires !token.Reference?
    requires k + |SourceOf(token)| <= |text| && text[k..k + |SourceOf(token)|] == SourceOf(token)
    requires DollarToken(token, text[k + |SourceOf(token)|..])
    ensures !("${" <= text[k..])
  {
    if token.EscapedDollar? {
      assert text[k..k + 2][1] == text[k..][1];
    } else {
      assert text[k..][1..] == text[k + 1..];
    }
  }

  /** A broken template has no tokenization. */
  lemma {:induction false} BrokenHasNone(text: string, error: SyntaxError, tokens: seq<Token>)
    requires Broken(text, error)
    ensures !Tokenization(tokens, text)
  {
    if Tokenization(tokens, text) {
      var a, i: nat, k: nat :| BrokenAt(text, error, a, i, k);
      var last := |text| - |tokens[|tokens| - 1].text|;
      hide Leads, BadReference, Broken, BrokenAt;
      StuckNeverEnds(text, error, a, i, k, tokens[..|tokens| - 1], last);
    }
  }

  lemma {:induction false} StuckNeverEnds(text: string, error: SyntaxError, a: seq<Token>, i: nat, k: nat,
                                          b: seq<Token>, last: nat)
    requires BrokenAt(text, error, a, i, k)
    requires last <= |text| && Leads(b, text, last)
    ensures '$' in text[last..]
  {
    hide Leads, BadReference;
    BadIsDollar(text, error, a, i, k);
    if '$' !in text[last..] {
      assert text[last..|text|] == text[last..];
      StuckAgree(text, error, a, i, k, b, last, |text|);
    }
  }

  lemma {:induction false} BadIsDollar(text: string, error: SyntaxError, a: seq<Token>, i: nat, k: nat)
    requires BrokenAt(text, error, a, i, k)
    ensures k < |text| && text[k] == '$'
  {
    hide Leads;
    assert text[k..][0] == text[k];
  }

  /** A broken template is broken in one way: the first bad reference decides. */
  lemma {:induction false} BrokenOnce(text: string, error: SyntaxError, other: SyntaxError)
    requires Broken(text, error) && Broken(text, other)
    ensures error == other
  {
    var a, i: nat, k: nat :| BrokenAt(text, error, a, i, k);
    var b, j: nat, l: nat :| BrokenAt(text, other, b, j, l);
    hide Leads, IsEnvironmentName, ByteLen;
    BadIsDollar(text, error, a, i, k);
    BadIsDollar(text, other, b, j, l);
    StuckAgree(text, error, a, i, k, b, j, l);
    StuckAgree(text, other, b, j, l, a, i, k);
    SameDollar(text, i, k, l);
  }

  lemma {:induction false} SameDollar(text: string, i: nat, k: nat, l: nat)
    requires i <= k < |text| && i <= l < |text| && text[k] == '$' && text[l] == '$'
    requires '$' !in text[i..k] && '$' !in text[i..l]
    ensures k == l
  {
    assert text[i..][..k - i] == text[i..k] && text[i..][..l - i] == text[i..l];
    IndexOfIs(text[i..], '$', k - i);
    IndexOfIs(text[i..], '$', l - i);
  }

  /** Where one scan is stuck, no other scan of the text goes further. */
  lemma {:induction false} StuckAgree(text: string, error: SyntaxError, a: seq<Token>, i: nat, k: nat,
                                      b: seq<Token>, j: nat, l: nat)
    requires BrokenAt(text, error, a, i, k)
    requires Leads(b, text, j) && j <= l <= |text| && '$' !in text[j..l]
    ensures |b| <= |a| && j <= i
    ensures |a| == |b| ==> i == j
  {
    hide Leads, IsEnvironmentName, ByteLen, More, BadReference;
    if |a| < |b| {
      LeadsAgree(a, b, text, i, j);
      StuckHasNoMore(text, error, a, i, k);
      assert false;
    } else {
      LeadsAgree(b, a, text, j, i);
    }
  }

  lemma {:induction false} StuckHasNoMore(text: string, error: SyntaxError, a: seq<Token>, i: nat, k: nat)
    requires BrokenAt(text, error, a, i, k)
    ensures !More(text, i)
  {
    hide Leads, IsEnvironmentName, ByteLen, BadReference, SourceOf, DollarToken;
    if More(text, i) {
      var token, m: nat :| DollarStands(text, i, m, token);
      BadIsDollar(text, error, a, i, k);
      SameDollar(text, i, k, m);
      BadHasNoToken(text, k, token, ByteLen(text[..k]), error);
    }
  }

  // ------------------------------------------------------- outside anchors

  /** Where the characters of a name begin and end. */
  lemma {:induction false} NameBounds()
    ensures IsNameStart('_') && IsNameStart('a') && IsNameStart('z') && IsNameStart('A') && IsNameStart('Z')
    ensures !IsNameStart('`') && !IsNameStart('{') && !IsNameStart('@') && !IsNameStart('[') && !IsNameStart('0')
    ensures IsNameChar('0') && IsNameChar('9') && !IsNameChar('/') && !IsNameChar(':') && !IsNameChar('-')
    ensures IsEnvironmentName("_") && IsEnvironmentName("A1") && !IsEnvironmentName("") && !IsEnvironmentName("1A")
  {
  }

  /** An error's offset is where the dollar and the brace of the bad reference stand among the
      bytes of the text. */
  lemma {:induction false} ErrorPointsAtDollar(text: string, error: SyntaxError)
    requires Broken(text, error)
    ensures error.offset + 1 < |Encoded(text)|
    ensures Encoded(text)[error.offset] == '$' as int && Encoded(text)[error.offset + 1] == '{' as int
  {
    hide Leads, BadReference, ByteLen, Encoded;
    var tokens, j: nat, k: nat :| BrokenAt(text, error, tokens, j, k);
    BadReferenceAt(text, k, error);
    hide BrokenAt, Broken;
    BytesBehind(text[..k], text[k + 2..]);
  }

  lemma {:induction false} BytesBehind(head: string, rest: string)
    ensures var bytes := Encoded(head + ("${" + rest));
            && ByteLen(head) + 1 < |bytes|
            && bytes[ByteLen(head)] == '$' as int && bytes[ByteLen(head) + 1] == '{' as int
  {
    hide *;
    EncodedLength(head);
    EncodedConcat(head, "${" + rest);
    EncodedConcat("${", rest);
    DollarBytes();
  }

  lemma {:induction false} BadReferenceAt(text: string, k: nat, error: SyntaxError)
    requires k <= |text| && BadReference(text[k..], ByteLen(text[..k]), error)
    ensures error.offset == ByteLen(text[..k]) && k + 2 <= |text| && text == text[..k] + ("${" + text[k + 2..])
  {
    hide IsEnvironmentName, IndexOf, ByteLen;
    assert text[k..][..2] == "${";
    assert text[k..] == "${" + text[k + 2..];
  }

  lemma {:induction false} DollarBytes()
    ensures Encoded("${") == ['$' as int, '{' as int]
  {
    assert "${"[..1] == "$" && "$"[..0] == "";
    assert Encoded("$") == ['$' as int];
  }
}
