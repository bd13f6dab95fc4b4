/**
 * PaymentServiceImpl.processPayment: card data is attached to the payment of a
 * session, stored masked, and sent unmasked to the bank, whose answer becomes
 * the payment's status. The session-expiry check and the bank are opaque
 * functions supplied by the caller.
 */
module PaymentService {
  import opened Common

  /** The CardInfoDTO fields processPayment reads; enum values are their names. */
  datatype CardInfo = CardInfo(
    session: string,
    cardOfBrand: string,
    cardHolderName: string,
    pan: string,
    expiry: string,
    cvv: int,
    numberOfInstallments: int,
    secureType: string)

  /** A stored payment: the order it pays for, the card data and the status. */
  datatype Payment = Payment(
    session: string,
    currencyAmount: real,
    currency: string,
    orderId: string,
    orderDescription: string,
    cardOfBrand: string,
    cardHolderName: string,
    pan: string,
    expiry: string,
    cvv: int,
    numberOfInstallments: int,
    secureType: string,
    status: string)

  /** The BankDTO processPayment sends. */
  datatype BankRequest = BankRequest(
    cardOfBrand: string,
    cardHolderName: string,
    pan: string,
    expiry: string,
    cvv: int,
    numberOfInstallments: int,
    secureType: string,
    currencyAmount: real,
    currency: string,
    orderId: string,
    orderDescription: string,
    status: string)

  /** The payments table, looked up by session. */
  class PaymentRepository {
    var payments: map<string, Payment>

    /** Every payment is filed under its own session. */
    ghost predicate Valid() reads this {
      forall s :: s in payments ==> payments[s].session == s
    }

    constructor ()
      ensures Valid() && payments == map[]
    {
      payments := map[];
    }

    method Save(p: Payment)
      requires Valid()
      modifies this
      ensures Valid() && payments == old(payments)[p.session := p]
    {
      payments := payments[p.session := p];
    }
  }

  // ---------------------------------------------------------------- masking

  /** A character of the mask itself. */
  predicate IsMaskChar(c: char) {
    c == '*' || c == ' '
  }

  /**
   * maskPan: the first four characters, " **** **** ", the last four; a PAN
   * shorter than four characters makes substring throw.
   */
  function MaskPan(pan: string): (r: Option<string>)
    ensures r.Some? <==> |pan| >= 4
    ensures r.Some? ==>
      && |r.value| == 19
      && r.value[..4] == pan[..4]
      && r.value[15..] == pan[|pan| - 4..]
      && forall i :: 4 <= i < 15 ==> IsMaskChar(r.value[i])
  {
    if |pan| < 4 then None else Some(pan[..4] + " **** **** " + pan[|pan| - 4..])
  }

  /** The mask shows nothing of the PAN but its first and last four characters. */
  lemma MaskPanHidesTheMiddle(pan: string, other: string)
    requires |pan| >= 4 && |other| >= 4
    requires pan[..4] == other[..4] && pan[|pan| - 4..] == other[|other| - 4..]
    ensures MaskPan(pan) == MaskPan(other)
  {
  }

  /** A sixteen-digit card number is masked to its first and last four digits. */
  lemma MaskPanExample()
    ensures MaskPan("4111111111111111") == Some("4111 **** **** 1111")
  {
    var pan := "4111111111111111";
    assert pan[..4] == "4111";
    assert pan[12..] == "1111";
    assert "4111" + " **** **** " + "1111" == "4111 **** **** 1111";
  }

  /** The index of the first space, or -1. */
  function IndexOfSpace(s: string): (k: int)
    ensures -1 <= k < |s|
    ensures k >= 0 ==> s[k] == ' '
    ensures forall j :: 0 <= j < |s| && (k < 0 || j < k) ==> s[j] != ' '
  {
    if s == [] then -1
    else if s[0] == ' ' then 0
    else var k := IndexOfSpace(s[1..]); if k < 0 then -1 else k + 1
  }

  /**
   * String.split(" ") before it drops trailing empty strings: the pieces
   * between single spaces. (Dropping trailing empty pieces cannot change
   * maskName's outcome: it fails on an empty first or second piece either way.)
   */
  function Words(s: string): (w: seq<string>)
    ensures |w| >= 1
    decreases |s|
  {
    var k := IndexOfSpace(s);
    if k < 0 then [s] else [s[..k]] + Words(s[k + 1..])
  }

  /** The pieces joined again with single spaces. */
  function JoinWords(w: seq<string>): string
    requires |w| >= 1
  {
    if |w| == 1 then w[0] else w[0] + " " + JoinWords(w[1..])
  }

  /** A piece of a split: no space in it. */
  predicate IsWord(x: string) {
    forall j :: 0 <= j < |x| ==> x[j] != ' '
  }

  /** No piece of a split contains a space. */
  lemma {:induction false} WordsHaveNoSpace(s: string)
    ensures forall i :: 0 <= i < |Words(s)| ==> IsWord(Words(s)[i])
    decreases |s|
  {
    var k := IndexOfSpace(s);
    var w := Words(s);
    if k < 0 {
      assert w == [s];
    } else {
      var rest := Words(s[k + 1..]);
      assert w == [s[..k]] + rest;
      WordsHaveNoSpace(s[k + 1..]);
      assert IsWord(s[..k]) by {
        forall j | 0 <= j < k ensures s[..k][j] != ' ' {
          assert s[..k][j] == s[j];
        }
      }
      forall i | 0 <= i < |w| ensures IsWord(w[i]) {
        if i > 0 {
          assert w[i] == rest[i - 1];
        }
      }
    }
  }

  /** Joining the pieces of a split gives back the input. */
  lemma {:induction false} WordsJoinBack(s: string)
    ensures JoinWords(Words(s)) == s
    decreases |s|
  {
    var k := IndexOfSpace(s);
    if k >= 0 {
      var w := Words(s);
      var rest := Words(s[k + 1..]);
      assert w[0] == s[..k] && w[1..] == rest by {
        assert w == [s[..k]] + rest;
      }
      assert JoinWords(rest) == s[k + 1..] by {
        WordsJoinBack(s[k + 1..]);
      }
      calc {
        JoinWords(w);
        w[0] + " " + JoinWords(w[1..]);
        s[..k] + " " + s[k + 1..];
        { assert s[k] == ' '; }
        s;
      }
    }
  }

  /** A word without spaces followed by a space splits off as the first piece. */
  lemma {:induction false} WordsOfPrefixed(a: string, rest: string)
    requires IsWord(a)
    ensures Words(a + " " + rest) == [a] + Words(rest)
    ensures Words(a) == [a]
  {
    var s := a + " " + rest;
    assert s[|a|] == ' ';
    assert IndexOfSpace(s) == |a|;
    assert s[..|a|] == a && s[|a| + 1..] == rest;
  }

  /**
   * maskName: the first two characters of the first and second words, each
   * followed by stars; fewer than two words, or a word shorter than two
   * characters, makes split or substring throw.
   */
  function MaskName(name: string): (r: Option<string>)
    ensures var w := Words(name);
      r.Some? <==> |w| >= 2 && |w[0]| >= 2 && |w[1]| >= 2
    ensures r.Some? ==>
      && |r.value| == 10
      && r.value[..2] == name[..2]
      && r.value[6..8] == Words(name)[1][..2]
      && forall i :: (2 <= i < 6 || 8 <= i < 10) ==> IsMaskChar(r.value[i])
  {
    var w := Words(name);
    if |w| < 2 || |w[0]| < 2 || |w[1]| < 2 then None
    else
      assert name[..2] == w[0][..2] by {
        assert w[0] == name[..IndexOfSpace(name)];
      }
      Some(w[0][..2] + "*** " + w[1][..2] + "**")
  }

  /** "first second rest" splits into first, second, then the pieces of rest. */
  lemma {:induction false} WordsOfThree(first: string, second: string, rest: string)
    requires IsWord(first)
    requires IsWord(second)
    ensures Words(first + " " + (second + " " + rest)) == [first, second] + Words(rest)
  {
    var tail := second + " " + rest;
    assert Words(first + " " + tail) == [first] + Words(tail) by {
      WordsOfPrefixed(first, tail);
    }
    assert Words(tail) == [second] + Words(rest) by {
      WordsOfPrefixed(second, rest);
    }
    assert [first] + ([second] + Words(rest)) == [first, second] + Words(rest);
  }

  /** "first second" splits into exactly first and second. */
  lemma {:induction false} WordsOfTwo(first: string, second: string)
    requires IsWord(first)
    requires IsWord(second)
    ensures Words(first + " " + second) == [first, second]
  {
    WordsOfPrefixed(first, second);
    WordsOfPrefixed(second, "");
  }

  /** Words after the second do not change the mask. */
  lemma {:induction false} MaskNameIgnoresLaterWords(first: string, second: string, rest: string)
    requires IsWord(first)
    requires IsWord(second)
    ensures MaskName(first + " " + (second + " " + rest)) == MaskName(first + " " + second)
  {
    WordsOfThree(first, second, rest);
    WordsOfTwo(first, second);
    MaskNameByWords(first + " " + (second + " " + rest), first + " " + second);
  }

  /** maskName looks only at the first two pieces. */
  lemma MaskNameByWords(a: string, b: string)
    requires |Words(a)| >= 2 && |Words(b)| >= 2
    requires Words(a)[0] == Words(b)[0] && Words(a)[1] == Words(b)[1]
    ensures MaskName(a) == MaskName(b)
  {
  }

  /** A two-word holder name keeps two letters of each word. */
  lemma {:induction false} MaskNameExample()
    ensures MaskName("John Smith") == Some("Jo*** Sm**")
  {
    WordsOfTwo("John", "Smith");
    assert "John" + " " + "Smith" == "John Smith";
    assert "John"[..2] == "Jo" && "Smith"[..2] == "Sm";
    assert "Jo" + "*** " + "Sm" + "**" == "Jo*** Sm**";
  }

  // ---------------------------------------------------------------- payment

  /** The payment with the card data set as processPayment sets it: holder name and PAN masked. */
  function WithCard(p: Payment, dto: CardInfo): (q: Payment)
    requires MaskName(dto.cardHolderName).Some? && MaskPan(dto.pan).Some?
    ensures q.session == p.session && q.currencyAmount == p.currencyAmount && q.currency == p.currency
    ensures q.orderId == p.orderId && q.orderDescription == p.orderDescription && q.status == p.status
    ensures q.pan != dto.pan || |dto.pan| == 19
    ensures q.pan == MaskPan(dto.pan).value && q.cardHolderName == MaskName(dto.cardHolderName).value
  {
    p.(cardOfBrand := dto.cardOfBrand, cardHolderName := MaskName(dto.cardHolderName).value,
       pan := MaskPan(dto.pan).value, expiry := dto.expiry, cvv := dto.cvv,
       numberOfInstallments := dto.numberOfInstallments, secureType := dto.secureType)
  }

  /** convertToBankTO: the raw card data from the request, the order and status from the payment. */
  function BankRequestFor(p: Payment, dto: CardInfo): (b: BankRequest)
    ensures b.cardHolderName == dto.cardHolderName && b.pan == dto.pan
    ensures b.orderId == p.orderId && b.currencyAmount == p.currencyAmount && b.status == p.status
  {
    BankRequest(dto.cardOfBrand, dto.cardHolderName, dto.pan, dto.expiry, dto.cvv, dto.numberOfInstallments,
                dto.secureType, p.currencyAmount, p.currency, p.orderId, p.orderDescription, p.status)
  }

  /** The payment processPayment saves: the card data set, then the bank's status. */
  function Charged(p: Payment, dto: CardInfo, bank: BankRequest -> string): (q: Payment)
    requires MaskName(dto.cardHolderName).Some? && MaskPan(dto.pan).Some?
    ensures q.cardHolderName == MaskName(dto.cardHolderName).value && q.pan == MaskPan(dto.pan).value
    ensures q.status == bank(BankRequestFor(WithCard(p, dto), dto))
    ensures q.session == p.session && q.orderId == p.orderId && q.currencyAmount == p.currencyAmount
  {
    var q := WithCard(p, dto);
    q.(status := bank(BankRequestFor(q, dto)))
  }

  /**
   * processPayment: an unknown session fails first, then an unusable one, then
   * malformed card data; in each case nothing is stored. Otherwise the
   * session's payment is replaced by the charged one.
   */
  method ProcessPayment(repo: PaymentRepository, dto: CardInfo, sessionUsable: Payment -> bool,
                        bank: BankRequest -> string) returns (r: Result<Payment>)
    requires repo.Valid()
    modifies repo
    ensures repo.Valid()
    ensures r.Err? ==> unchanged(repo)
    ensures dto.session !in old(repo.payments) ==> r == Err(Runtime(InvalidSession))
    ensures dto.session in old(repo.payments) ==>
      var p := old(repo.payments)[dto.session];
      if !sessionUsable(p) then r == Err(Runtime(SessionNotUsable))
      else if MaskName(dto.cardHolderName).None? || MaskPan(dto.pan).None? then r == Err(Runtime(MalformedCardData))
      else r == Ok(Charged(p, dto, bank)) && repo.payments == old(repo.payments)[dto.session := r.value]
  {
    if dto.session !in repo.payments {
      return Err(Runtime(InvalidSession));
    }
    var p := repo.payments[dto.session];
    if !sessionUsable(p) {
      return Err(Runtime(SessionNotUsable));
    }
    var name := MaskName(dto.cardHolderName);
    var pan := MaskPan(dto.pan);
    if name.None? || pan.None? {
      return Err(Runtime(MalformedCardData));
    }
    var charged := Charged(p, dto, bank);
    repo.Save(charged);
    r := Ok(charged);
  }
}
