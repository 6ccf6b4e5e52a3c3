/** The greedy byte-pair tokenizer: what it encodes, when that loses nothing, and the index-linked trie behind it. */
module Bpe {

  type Byte = b: int | 0 <= b < 0x100

  /** Registered sequences and their ids; the empty sequence and id 0 are never registered. */
  type Vocab = map<seq<Byte>, nat>

  ghost predicate WellFormed(vocab: Vocab) { forall s :: s in vocab ==> s != [] && vocab[s] != 0 }

  /** One registration: the last id wins, and degenerate registrations are ignored. */
  function Registered(vocab: Vocab, sequence: seq<Byte>, id: nat): Vocab {
    if sequence == [] || id == 0 then vocab else vocab[sequence := id]
  }

  /** What a history of registrations leaves registered. */
  function History(merges: seq<(seq<Byte>, nat)>): Vocab {
    if |merges| == 0 then map[]
    else Registered(History(merges[..|merges| - 1]), merges[|merges| - 1].0, merges[|merges| - 1].1)
  }

  /** `merges[k]` registers `s`. */
  predicate Registers(merges: seq<(seq<Byte>, nat)>, k: int, s: seq<Byte>) {
    0 <= k < |merges| && merges[k].0 == s && s != [] && merges[k].1 != 0
  }

  /** `merges[k]` is the last registration of `s`. */
  ghost predicate RegistersLast(merges: seq<(seq<Byte>, nat)>, k: int, s: seq<Byte>) {
    Registers(merges, k, s) && forall m :: k < m ==> !Registers(merges, m, s)
  }

  /** A sequence is registered exactly when some merge registered it, under the id of the last one that did. */
  lemma {:induction false} LastRegistrationWins(merges: seq<(seq<Byte>, nat)>, s: seq<Byte>)
    ensures s in History(merges) <==> exists k :: Registers(merges, k, s)
    ensures forall k :: RegistersLast(merges, k, s) ==> s in History(merges) && History(merges)[s] == merges[k].1
  {
    if |merges| > 0 {
      var last := |merges| - 1;
      var past := merges[..last];
      LastRegistrationWins(past, s);
      forall k | k != last ensures Registers(merges, k, s) <==> Registers(past, k, s) {}
      if Registers(merges, last, s) {
        forall k | RegistersLast(merges, k, s) ensures k == last {}
      } else {
        forall k | RegistersLast(merges, k, s) ensures RegistersLast(past, k, s) {}
      }
    }
  }

  // ---- greedy encoding ------------------------------------------------------------------------------------------

  /** The length, at most `k`, of the longest registered prefix of `rest`; 0 when there is none. */
  function LongestUpTo(vocab: Vocab, rest: seq<Byte>, k: nat): (n: nat)
    requires k <= |rest|
    ensures n <= k
  {
    if k == 0 then 0 else if rest[..k] in vocab then k else LongestUpTo(vocab, rest, k - 1)
  }

  lemma {:induction false} LongestIsLongest(vocab: Vocab, rest: seq<Byte>, k: nat)
    requires k <= |rest|
    ensures var n := LongestUpTo(vocab, rest, k);
            && n <= k && (n > 0 ==> rest[..n] in vocab)
            && forall m :: n < m <= k ==> rest[..m] !in vocab
  {
    if k > 0 && rest[..k] !in vocab { LongestIsLongest(vocab, rest, k - 1); }
  }

  /** How much of a non-empty input its first token stands for: the longest registered prefix, else one byte. */
  function FirstLength(vocab: Vocab, input: seq<Byte>): (n: nat)
    requires input != []
    ensures 1 <= n <= |input|
  {
    var n := LongestUpTo(vocab, input, |input|);
    if n == 0 then 1 else n
  }

  function FirstUnit(vocab: Vocab, input: seq<Byte>): seq<Byte>
    requires input != []
  {
    input[..FirstLength(vocab, input)]
  }

  /** The token of a unit: its registered id, or the raw byte. */
  function TokenOf(vocab: Vocab, unit: seq<Byte>): nat
    requires unit != []
  {
    if unit in vocab then vocab[unit] else unit[0]
  }

  function Encoded(vocab: Vocab, input: seq<Byte>): seq<nat>
    decreases |input|
  {
    if input == [] then []
    else
      [TokenOf(vocab, FirstUnit(vocab, input))] + Encoded(vocab, input[FirstLength(vocab, input)..])
  }

  /** Never more than one token per byte. */
  lemma {:induction false} AtMostOneTokenPerByte(vocab: Vocab, input: seq<Byte>)
    ensures |Encoded(vocab, input)| <= |input|
    decreases |input|
  {
    if input != [] { AtMostOneTokenPerByte(vocab, input[|FirstUnit(vocab, input)|..]); }
  }

  // ---- when nothing is lost ---------------------------------------------------------------------------------------

  /** The sequences tokens stand for: every registered one, and every byte that is not registered on its own. */
  predicate IsUnit(vocab: Vocab, unit: seq<Byte>) { unit != [] && (unit in vocab || |unit| == 1) }

  /** No two units share a token. */
  ghost predicate TokensDistinct(vocab: Vocab) {
    forall u, v :: IsUnit(vocab, u) && IsUnit(vocab, v) && TokenOf(vocab, u) == TokenOf(vocab, v) ==> u == v
  }

  ghost predicate Lossless(vocab: Vocab) {
    forall a, b :: Encoded(vocab, a) == Encoded(vocab, b) ==> a == b
  }

  lemma FirstUnitIsUnit(vocab: Vocab, input: seq<Byte>)
    requires input != []
    ensures IsUnit(vocab, FirstUnit(vocab, input))
  {
    LongestIsLongest(vocab, input, |input|);
  }

  /** A unit on its own encodes as its one token. */
  lemma UnitEncodesAsOneToken(vocab: Vocab, unit: seq<Byte>)
    requires IsUnit(vocab, unit)
    ensures Encoded(vocab, unit) == [TokenOf(vocab, unit)]
  {
    assert unit[..|unit|] == unit;
    assert FirstUnit(vocab, unit) == unit by {
      if unit !in vocab { assert LongestUpTo(vocab, unit, 0) == 0; }
    }
    assert Encoded(vocab, unit[|unit|..]) == [];
  }

  lemma {:induction false} EqualTokensEqualInputs(vocab: Vocab, a: seq<Byte>, b: seq<Byte>)
    requires TokensDistinct(vocab) && Encoded(vocab, a) == Encoded(vocab, b)
    ensures a == b
    decreases |a|
  {
    if a != [] && b != [] {
      var u, v := FirstUnit(vocab, a), FirstUnit(vocab, b);
      var a', b' := a[|u|..], b[|v|..];
      assert Encoded(vocab, a)[0] == TokenOf(vocab, u) && Encoded(vocab, b)[0] == TokenOf(vocab, v);
      assert Encoded(vocab, a)[1..] == Encoded(vocab, a') && Encoded(vocab, b)[1..] == Encoded(vocab, b');
      FirstUnitIsUnit(vocab, a);
      FirstUnitIsUnit(vocab, b);
      EqualTokensEqualInputs(vocab, a', b');
      assert a == u + a' && b == v + b';
    }
  }

  /** Encoding loses nothing if and only if no two units share a token. The documented convention, distinct ids from
      256 up, is one way to meet this; the tokenizer does not enforce it. */
  lemma LosslessIff(vocab: Vocab)
    ensures Lossless(vocab) <==> TokensDistinct(vocab)
  {
    if TokensDistinct(vocab) {
      forall a, b | Encoded(vocab, a) == Encoded(vocab, b) ensures a == b {
        EqualTokensEqualInputs(vocab, a, b);
      }
    }
    if Lossless(vocab) {
      forall u, v | IsUnit(vocab, u) && IsUnit(vocab, v) && TokenOf(vocab, u) == TokenOf(vocab, v) ensures u == v {
        UnitEncodesAsOneToken(vocab, u);
        UnitEncodesAsOneToken(vocab, v);
      }
    }
  }

  /** Ids from 256 up, one per sequence. */
  ghost predicate Conventional(vocab: Vocab) {
    && (forall s :: s in vocab ==> s != [] && vocab[s] >= 256)
    && forall s, t :: s in vocab && t in vocab && vocab[s] == vocab[t] ==> s == t
  }

  /** `dictionary` sends each registered id back to its sequence. */
  ghost predicate Inverts(dictionary: map<nat, seq<Byte>>, vocab: Vocab) {
    && (forall s :: s in vocab ==> vocab[s] in dictionary && dictionary[vocab[s]] == s)
    && forall t :: t in dictionary ==> t >= 256
  }

  function Decoded(dictionary: map<nat, seq<Byte>>, tokens: seq<nat>): seq<Byte> {
    if |tokens| == 0 then []
    else
      var t := tokens[0];
      (if t in dictionary then dictionary[t] else if t < 256 then [t] else []) + Decoded(dictionary, tokens[1..])
  }

  /** Under the convention, decoding what was encoded gives the input back. */
  lemma {:induction false} DecodeEncode(vocab: Vocab, dictionary: map<nat, seq<Byte>>, input: seq<Byte>)
    requires Conventional(vocab) && Inverts(dictionary, vocab)
    ensures Decoded(dictionary, Encoded(vocab, input)) == input
    decreases |input|
  {
    if input != [] {
      var unit := FirstUnit(vocab, input);
      FirstUnitIsUnit(vocab, input);
      DecodeEncode(vocab, dictionary, input[|unit|..]);
      var tokens := Encoded(vocab, input);
      assert tokens[1..] == Encoded(vocab, input[|unit|..]) && tokens[0] == TokenOf(vocab, unit);
      assert input == unit + input[|unit|..];
    }
  }

  /** Without the convention inputs collide: one sequence registered under another byte's value. */
  lemma ClashingIdLosesInput()
    ensures var vocab: Vocab := map[[97] := 98];
            Encoded(vocab, [97]) == Encoded(vocab, [98])
  {
    var vocab: Vocab := map[[97] := 98];
    UnitEncodesAsOneToken(vocab, [97]);
    UnitEncodesAsOneToken(vocab, [98]);
  }
}
