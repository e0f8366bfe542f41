/** Password generation: alphabet construction from the enabled classes,
    mapping of 32-bit random words onto the alphabet, and the bounded
    newest-first history of generated passwords. */
module Generator {
  import opened CharClass
  import opened Wrappers

  /** An element of the `Uint32Array` filled by the secure random source. */
  newtype Word32 = x: int | 0 <= x < 0x1_0000_0000

  /** The generator settings: requested length and the four class switches. */
  datatype Config = Config(length: nat, upper: bool, lower: bool, digits: bool, symbols: bool)

  /** The settings the component starts with: length 16, every class enabled. */
  const DefaultConfig: Config := Config(16, true, true, true, true)

  /** The history keeps at most this many passwords. */
  const HistoryCap: nat := 10

  /** True when `c` belongs to a class that `cfg` enables. */
  predicate Enabled(cfg: Config, c: char) {
    || (cfg.upper && IsAsciiUpper(c))
    || (cfg.lower && IsAsciiLower(c))
    || (cfg.digits && IsAsciiDigit(c))
    || (cfg.symbols && c in Symbols)
  }

  predicate NoClassEnabled(cfg: Config) {
    !cfg.upper && !cfg.lower && !cfg.digits && !cfg.symbols
  }

  /** The number of characters a class contributes: its size when enabled, else none. */
  function PartSize(enabled: bool, size: nat): nat {
    if enabled then size else 0
  }

  /** Where the lower-case, digit and symbol blocks start in the alphabet. */
  function LowerStart(cfg: Config): nat { PartSize(cfg.upper, 26) }
  function DigitsStart(cfg: Config): nat { LowerStart(cfg) + PartSize(cfg.lower, 26) }
  function SymbolsStart(cfg: Config): nat { DigitsStart(cfg) + PartSize(cfg.digits, 10) }

  /** The alphabet: enabled classes appended in the order upper, lower, digits,
      symbols. Each enabled class occupies its own block, starting where the
      blocks of the enabled classes before it end. */
  function Charset(cfg: Config): (r: string)
    ensures |r| == SymbolsStart(cfg) + PartSize(cfg.symbols, 26)
    ensures cfg.upper ==> r[..26] == Upper
    ensures cfg.lower ==> r[LowerStart(cfg)..LowerStart(cfg) + 26] == Lower
    ensures cfg.digits ==> r[DigitsStart(cfg)..DigitsStart(cfg) + 10] == Digits
    ensures cfg.symbols ==> r[SymbolsStart(cfg)..] == Symbols
    ensures |r| <= 88
    ensures r == "" <==> NoClassEnabled(cfg)
    ensures forall c :: c in r <==> Enabled(cfg, c)
  {
    var r := ClassPart(cfg.upper, Upper) + ClassPart(cfg.lower, Lower)
           + ClassPart(cfg.digits, Digits) + ClassPart(cfg.symbols, Symbols);
    CharsetMembers(cfg, r);
    CharsetBlocks(cfg, r);
    r
  }

  /** One class's contribution to the alphabet. */
  function ClassPart(enabled: bool, alphabet: string): string {
    if enabled then alphabet else ""
  }

  lemma CharsetMembers(cfg: Config, r: string)
    requires r == ClassPart(cfg.upper, Upper) + ClassPart(cfg.lower, Lower)
                + ClassPart(cfg.digits, Digits) + ClassPart(cfg.symbols, Symbols)
    ensures |r| <= 88
    ensures r == "" <==> NoClassEnabled(cfg)
    ensures forall c :: c in r <==> Enabled(cfg, c)
  {
    AlphabetSizes();
    forall c
      ensures c in r <==> Enabled(cfg, c)
    {
      UpperIsAsciiUpper(c);
      LowerIsAsciiLower(c);
      DigitsIsAsciiDigit(c);
    }
  }

  /** The block layout of the concatenation. */
  lemma CharsetBlocks(cfg: Config, r: string)
    requires r == ClassPart(cfg.upper, Upper) + ClassPart(cfg.lower, Lower)
                + ClassPart(cfg.digits, Digits) + ClassPart(cfg.symbols, Symbols)
    ensures |r| == SymbolsStart(cfg) + PartSize(cfg.symbols, 26)
    ensures cfg.upper ==> r[..26] == Upper
    ensures cfg.lower ==> r[LowerStart(cfg)..LowerStart(cfg) + 26] == Lower
    ensures cfg.digits ==> r[DigitsStart(cfg)..DigitsStart(cfg) + 10] == Digits
    ensures cfg.symbols ==> r[SymbolsStart(cfg)..] == Symbols
  {
    AlphabetSizes();
    var u, l, d, y := ClassPart(cfg.upper, Upper), ClassPart(cfg.lower, Lower),
                      ClassPart(cfg.digits, Digits), ClassPart(cfg.symbols, Symbols);
    assert |u| == LowerStart(cfg);
    assert |u + l| == DigitsStart(cfg);
    assert |u + l + d| == SymbolsStart(cfg);
    assert r == u + l + d + y;
    if cfg.upper {
      assert r[..26] == u;
    }
    if cfg.lower {
      assert r[LowerStart(cfg)..LowerStart(cfg) + 26] == l;
    }
    if cfg.digits {
      assert r[DigitsStart(cfg)..DigitsStart(cfg) + 10] == d;
    }
    if cfg.symbols {
      assert r[SymbolsStart(cfg)..] == y;
    }
  }

  /** The declarative reading of the generation loop: character `i` is the
      alphabet entry selected by word `i` reduced modulo the alphabet size. */
  predicate SelectedBy(charset: string, words: seq<Word32>, pw: string)
    requires charset != ""
  {
    && |pw| == |words|
    && forall i :: 0 <= i < |pw| ==> pw[i] == charset[words[i] as int % |charset|]
  }

  /** The loop of the component: append `charset[word % |charset|]` for each word. */
  method Assemble(charset: string, words: seq<Word32>) returns (pw: string)
    requires charset != ""
    ensures SelectedBy(charset, words, pw)
    ensures pw == AssembleF(charset, words)
    ensures forall i :: 0 <= i < |pw| ==> pw[i] in charset
  {
    pw := "";
    var i := 0;
    while i < |words|
      invariant 0 <= i <= |words|
      invariant |pw| == i
      invariant forall j :: 0 <= j < i ==> pw[j] == charset[words[j] as int % |charset|]
    {
      pw := pw + [charset[words[i] as int % |charset|]];
      i := i + 1;
    }
  }

  /** Functional form of `Assemble`, used by the session transitions;
      `Assemble` computes the same string. */
  function AssembleF(charset: string, words: seq<Word32>): (pw: string)
    requires charset != ""
    ensures SelectedBy(charset, words, pw)
  {
    seq(|words|, i requires 0 <= i < |words| => charset[words[i] as int % |charset|])
  }

  /** `generatePassword` without its effects: no password when no class is enabled,
      otherwise one character per random word, each from an enabled class. */
  function GeneratePassword(cfg: Config, words: seq<Word32>): (r: Option<string>)
    requires |words| == cfg.length
    ensures r.None? <==> NoClassEnabled(cfg)
    ensures r.Some? ==> |r.value| == cfg.length
    ensures r.Some? ==> forall i :: 0 <= i < |r.value| ==> Enabled(cfg, r.value[i])
    ensures r.Some? ==> SelectedBy(Charset(cfg), words, r.value)
  {
    var charset := Charset(cfg);
    if charset == "" then None else Some(AssembleF(charset, words))
  }

  /** No enabled character is out of reach: some word selects it. */
  lemma EveryEnabledCharReachable(cfg: Config, c: char) returns (w: Word32)
    requires Enabled(cfg, c)
    ensures GeneratePassword(cfg.(length := 1), [w]) == Some([c])
  {
    var charset := Charset(cfg);
    assert c in charset;
    w := WordSelecting(charset, c);
    assert Charset(cfg.(length := 1)) == charset;
  }

  /** The index of `c` in a short alphabet is itself a word that selects `c`. */
  lemma WordSelecting(charset: string, c: char) returns (w: Word32)
    requires c in charset && |charset| <= 88
    ensures AssembleF(charset, [w]) == [c]
  {
    var i :| 0 <= i < |charset| && charset[i] == c;
    w := i as Word32;
    assert w as int % |charset| == i;
    var pw := AssembleF(charset, [w]);
    assert |pw| == 1 && pw[0] == charset[i];
    assert pw == [c];
  }

  /** `[newPassword, ...prev.slice(0, 9)]`. */
  function PushHistory(prev: seq<string>, pw: string): (r: seq<string>)
    ensures |r| == if |prev| + 1 < HistoryCap then |prev| + 1 else HistoryCap
    ensures r[0] == pw
    ensures r[1..] == prev[..|r| - 1]
  {
    [pw] + prev[..if |prev| < HistoryCap - 1 then |prev| else HistoryCap - 1]
  }

  /** The first `n` elements of `s`, or all of it when it is shorter. */
  function Take<T>(s: seq<T>, n: nat): seq<T> {
    if |s| <= n then s else s[..n]
  }

  function Reverse<T>(s: seq<T>): (r: seq<T>)
    ensures |r| == |s|
  {
    if s == [] then [] else Reverse(s[1..]) + [s[0]]
  }

  /** The history after pushing `pws` one after another, oldest first. */
  function PushAll(prev: seq<string>, pws: seq<string>): seq<string>
    decreases |pws|
  {
    if pws == [] then prev else PushAll(PushHistory(prev, pws[0]), pws[1..])
  }

  /** After any run of generations the history is the ten most recent passwords,
      newest first, followed by what is left of the earlier history. */
  lemma {:induction false} PushAllKeepsNewestTen(prev: seq<string>, pws: seq<string>)
    requires |prev| <= HistoryCap
    ensures PushAll(prev, pws) == Take(Reverse(pws) + prev, HistoryCap)
    decreases |pws|
  {
    if pws != [] {
      var h := PushHistory(prev, pws[0]);
      PushAllKeepsNewestTen(h, pws[1..]);
      assert h == Take([pws[0]] + prev, HistoryCap);
      assert Reverse(pws) == Reverse(pws[1..]) + [pws[0]];
      TakeOfTake(Reverse(pws[1..]), [pws[0]] + prev, HistoryCap);
    }
  }

  lemma TakeOfTake<T>(a: seq<T>, b: seq<T>, n: nat)
    ensures Take(a + Take(b, n), n) == Take(a + b, n)
  {
    if |b| > n {
      if |a| + n <= n {
        assert a == [];
        assert a + b == b;
        assert a + Take(b, n) == b[..n];
      } else {
        assert (a + b[..n])[..n] == (a + b)[..n];
      }
    }
  }
}
