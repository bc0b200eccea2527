/**
 * Pay-to-relay accounts and invoices (src/payment/mod.rs, the account and invoice methods of
 * src/repo/sqlite.rs, and the balance check and charge of src/db.rs). Every balance is explained
 * by a log of credits, admissions and charges.
 */
module Ledger {
  import opened Common

  datatype Status = Unpaid | Paid | Expired

  /** The balance column is a signed integer. */
  datatype Account = Account(admitted: bool, balance: int)

  datatype Invoice = Invoice(pubkey: string, amount: nat, status: Status, createdAt: nat)

  type Accounts = map<string, Account>

  type Invoices = map<string, Invoice>

  datatype Costs = Costs(admission: nat, perEvent: nat)

  datatype Credit = Credit(hash: string, pubkey: string, amount: nat)

  datatype Answer = Answer(hash: string, status: Status)

  /** The two tables, and the log of everything that moved a balance. */
  datatype Books = Books(
    accounts: Accounts,
    invoices: Invoices,
    credits: seq<Credit>,
    admissions: seq<string>,
    charges: seq<string>,
    answers: seq<Answer>)

  const OPENING: Books := Books(map[], map[], [], [], [], [])

  // ---------------------------------------------------------------------------------------
  // Repository operations
  // ---------------------------------------------------------------------------------------

  /** UPDATE account SET balance = balance + amount; nothing without such an account. */
  function AddBalance(accounts: Accounts, pk: string, amount: int): Accounts {
    if pk in accounts then accounts[pk := accounts[pk].(balance := accounts[pk].balance + amount)] else accounts
  }

  /** `create_account`: INSERT OR IGNORE with balance 0. */
  function CreateAccount(b: Books, pk: string): Books {
    if pk in b.accounts then b else b.(accounts := b.accounts[pk := Account(false, 0)])
  }

  /** `admit_account`: marks the account and takes the admission cost, whatever the balance. */
  function AdmitAccount(b: Books, pk: string, cost: nat): Books {
    if pk !in b.accounts then b
    else
      var balance := b.accounts[pk].balance - cost;
      b.(accounts := b.accounts[pk := Account(true, balance)], admissions := b.admissions + [pk])
  }

  /** `update_invoice`: the new status, and the credit when it goes from Unpaid to Paid. */
  function UpdateInvoice(b: Books, hash: string, status: Status): Books
    requires hash in b.invoices
  {
    var invoice := b.invoices[hash];
    var updated := b.(invoices := b.invoices[hash := invoice.(status := status)]);
    if invoice.status.Unpaid? && status.Paid? then
      updated.(accounts := AddBalance(b.accounts, invoice.pubkey, invoice.amount),
               credits := b.credits + [Credit(hash, invoice.pubkey, invoice.amount)])
    else updated
  }

  /** `check_invoice_status` when the processor answers: the answer is written down. */
  function RecordAnswer(b: Books, hash: string, status: Status): Books
    requires hash in b.invoices
  {
    UpdateInvoice(b, hash, status).(answers := b.answers + [Answer(hash, status)])
  }

  /** `create_invoice_record`: fails on a payment hash that is in use. */
  function CreateInvoice(b: Books, pk: string, hash: string, amount: nat, createdAt: nat): Books {
    if hash in b.invoices then b else b.(invoices := b.invoices[hash := Invoice(pk, amount, Unpaid, createdAt)])
  }

  predicate IsUnpaidOf(b: Books, pk: string, hash: string) {
    hash in b.invoices && b.invoices[hash].pubkey == pk && b.invoices[hash].status.Unpaid?
  }

  /** What `get_unpaid_invoice` may find: a latest unpaid invoice, or none if there is none. */
  predicate CanFind(b: Books, pk: string, found: Option<string>) {
    match found
    case None => forall h :: h in b.invoices ==> !IsUnpaidOf(b, pk, h)
    case Some(hash) =>
      IsUnpaidOf(b, pk, hash)
      && forall h :: h in b.invoices && IsUnpaidOf(b, pk, h) ==> b.invoices[h].createdAt <= b.invoices[hash].createdAt
  }

  // ---------------------------------------------------------------------------------------
  // Messages
  // ---------------------------------------------------------------------------------------

  /** A new invoice of the processor, or its failure. */
  datatype Issued = NotIssued | Issued(hash: string, at: nat)

  /**
   * What moves the ledger, with the answers of the database lookup and of the payment processor;
   * no answer means that the call failed. A write carries whether the event was written.
   */
  datatype Message =
    | NewAccount(pk: string, found: Option<string>, issued: Issued)
    | CheckAccount(pk: string, found: Option<string>, answer: Option<Status>, issued: Issued)
    | InvoicePaid(hash: string, answer: Option<Status>)
    | PaidWrite(pk: string, written: bool)

  /** `get_invoice_info`: an existing account keeps its open invoice; otherwise a new one is made. */
  function GetInvoiceInfo(b: Books, costs: Costs, pk: string, found: Option<string>, issued: Issued): Books {
    var b' := CreateAccount(b, pk);
    if pk in b.accounts && found.Some? then b'
    else if issued.NotIssued? then b'
    else CreateInvoice(b', pk, issued.hash, costs.admission, issued.at)
  }

  function OnCheckAccount(b: Books, costs: Costs, pk: string, found: Option<string>, answer: Option<Status>, issued: Issued): Books {
    if found.None? || found.value !in b.invoices then GetInvoiceInfo(b, costs, pk, None, issued)
    else if answer.None? then b
    else
      var b' := RecordAnswer(b, found.value, answer.value);
      if answer.value.Paid? then AdmitAccount(b', pk, costs.admission) else b'
  }

  /** The invoice is updated twice: by the status check, and again as Paid. */
  function OnInvoicePaid(b: Books, costs: Costs, hash: string, answer: Option<Status>): Books {
    if answer.None? || hash !in b.invoices then b
    else
      var b' := RecordAnswer(b, hash, answer.value);
      if answer.value.Paid? then AdmitAccount(UpdateInvoice(b', hash, Paid), b'.invoices[hash].pubkey, costs.admission)
      else b'
  }

  /** The writer lets an admitted account with enough balance through; a negative one cannot be read. */
  predicate MayWrite(b: Books, costs: Costs, pk: string) {
    pk in b.accounts && b.accounts[pk].admitted && b.accounts[pk].balance >= 0
    && b.accounts[pk].balance >= costs.perEvent
  }

  /** `update_account_balance`, negative: the cost of one event is taken. */
  function Charge(b: Books, pk: string, cost: nat): Books {
    b.(accounts := AddBalance(b.accounts, pk, 0 - cost), charges := b.charges + [pk])
  }

  function OnPaidWrite(b: Books, costs: Costs, pk: string, written: bool): Books {
    if MayWrite(b, costs, pk) && written && costs.perEvent > 0 then Charge(b, pk, costs.perEvent) else b
  }

  function Handle(b: Books, costs: Costs, m: Message): Books {
    match m
    case NewAccount(pk, found, issued) => GetInvoiceInfo(b, costs, pk, found, issued)
    case CheckAccount(pk, found, answer, issued) => OnCheckAccount(b, costs, pk, found, answer, issued)
    case InvoicePaid(hash, answer) => OnInvoicePaid(b, costs, hash, answer)
    case PaidWrite(pk, written) => OnPaidWrite(b, costs, pk, written)
  }

  /** The lookup of the message is one that the database can give. */
  predicate Possible(b: Books, m: Message) {
    match m
    case NewAccount(pk, found, _) => CanFind(b, pk, found)
    case CheckAccount(pk, found, _, _) => CanFind(b, pk, found)
    case _ => true
  }

  function HandleAll(b: Books, costs: Costs, ms: seq<Message>): Books {
    if ms == [] then b else Handle(HandleAll(b, costs, ms[..|ms| - 1]), costs, ms[|ms| - 1])
  }

  ghost predicate AllPossible(b: Books, costs: Costs, ms: seq<Message>) {
    forall i :: 0 <= i < |ms| ==> Possible(HandleAll(b, costs, ms[..i]), ms[i])
  }

  // ---------------------------------------------------------------------------------------
  // Conservation
  // ---------------------------------------------------------------------------------------

  /** The credits of one account. */
  function Credited(credits: seq<Credit>, pk: string): nat {
    if credits == [] then 0
    else
      var last := credits[|credits| - 1];
      Credited(credits[..|credits| - 1], pk) + (if last.pubkey == pk then last.amount else 0)
  }

  /** A unit for every entry of one account. */
  function Taken(log: seq<string>, pk: string, unit: nat): nat {
    if log == [] then 0
    else Taken(log[..|log| - 1], pk, unit) + (if log[|log| - 1] == pk then unit else 0)
  }

  function Balance(b: Books, pk: string): int {
    if pk in b.accounts then b.accounts[pk].balance else 0
  }

  /** What an account has, plus what was taken from it, is what was credited to it. */
  predicate Explained(b: Books, costs: Costs, pk: string) {
    Balance(b, pk) + Taken(b.admissions, pk, costs.admission) + Taken(b.charges, pk, costs.perEvent)
    == Credited(b.credits, pk)
  }

  /** Every invoice belongs to an account, as the foreign key demands. */
  predicate InvoicesOwned(b: Books) {
    forall h :: h in b.invoices ==> b.invoices[h].pubkey in b.accounts
  }

  ghost predicate Balanced(b: Books, costs: Costs) {
    InvoicesOwned(b) && forall pk :: Explained(b, costs, pk)
  }

  lemma CreditedSnoc(credits: seq<Credit>, c: Credit, pk: string)
    ensures Credited(credits + [c], pk) == Credited(credits, pk) + (if c.pubkey == pk then c.amount else 0)
  {
    assert (credits + [c])[..|credits|] == credits;
  }

  lemma TakenSnoc(log: seq<string>, x: string, pk: string, unit: nat)
    ensures Taken(log + [x], pk, unit) == Taken(log, pk, unit) + (if x == pk then unit else 0)
  {
    assert (log + [x])[..|log|] == log;
  }

  lemma UpdateBalanced(b: Books, costs: Costs, hash: string, status: Status)
    requires Balanced(b, costs) && hash in b.invoices
    ensures Balanced(UpdateInvoice(b, hash, status), costs)
  {
    var b' := UpdateInvoice(b, hash, status);
    forall pk
      ensures Explained(b', costs, pk)
    {
      assert Explained(b, costs, pk);
      CreditedSnoc(b.credits, Credit(hash, b.invoices[hash].pubkey, b.invoices[hash].amount), pk);
    }
  }

  lemma AnswersAside(b: Books, costs: Costs, answers: seq<Answer>)
    requires Balanced(b, costs)
    ensures Balanced(b.(answers := answers), costs)
  {
    forall pk
      ensures Explained(b.(answers := answers), costs, pk)
    {
      assert Explained(b, costs, pk);
    }
  }

  lemma AdmitBalanced(b: Books, costs: Costs, pk: string)
    requires Balanced(b, costs)
    ensures Balanced(AdmitAccount(b, pk, costs.admission), costs)
  {
    var b' := AdmitAccount(b, pk, costs.admission);
    forall p
      ensures Explained(b', costs, p)
    {
      assert Explained(b, costs, p);
      TakenSnoc(b.admissions, pk, p, costs.admission);
    }
  }

  /** `get_invoice_info` moves no money: it may add an empty account and an open invoice. */
  lemma InvoiceInfoFields(b: Books, costs: Costs, pk: string, found: Option<string>, issued: Issued)
    ensures var b' := GetInvoiceInfo(b, costs, pk, found, issued);
            && b'.credits == b.credits && b'.admissions == b.admissions
            && b'.charges == b.charges && b'.answers == b.answers
            && b'.accounts == (if pk in b.accounts then b.accounts else b.accounts[pk := Account(false, 0)])
            && (b'.invoices == b.invoices
                || (issued.Issued? && issued.hash !in b.invoices
                    && b'.invoices == b.invoices[issued.hash := Invoice(pk, costs.admission, Unpaid, issued.at)]))
  {
  }

  lemma InvoiceInfoBalanced(b: Books, costs: Costs, pk: string, found: Option<string>, issued: Issued)
    requires Balanced(b, costs)
    ensures Balanced(GetInvoiceInfo(b, costs, pk, found, issued), costs)
  {
    var b' := GetInvoiceInfo(b, costs, pk, found, issued);
    InvoiceInfoFields(b, costs, pk, found, issued);
    forall p
      ensures Explained(b', costs, p)
    {
      assert Explained(b, costs, p);
      assert Balance(b', p) == Balance(b, p);
    }
  }

  lemma WriteBalanced(b: Books, costs: Costs, pk: string, written: bool)
    requires Balanced(b, costs)
    ensures Balanced(OnPaidWrite(b, costs, pk, written), costs)
  {
    var b' := OnPaidWrite(b, costs, pk, written);
    forall p
      ensures Explained(b', costs, p)
    {
      assert Explained(b, costs, p);
      TakenSnoc(b.charges, pk, p, costs.perEvent);
    }
  }

  lemma RecordBalanced(b: Books, costs: Costs, hash: string, status: Status)
    requires Balanced(b, costs) && hash in b.invoices
    ensures Balanced(RecordAnswer(b, hash, status), costs)
  {
    UpdateBalanced(b, costs, hash, status);
    AnswersAside(UpdateInvoice(b, hash, status), costs, b.answers + [Answer(hash, status)]);
  }

  lemma HandleBalanced(b: Books, costs: Costs, m: Message)
    requires Balanced(b, costs)
    ensures Balanced(Handle(b, costs, m), costs)
  {
    match m
    case NewAccount(pk, found, issued) => InvoiceInfoBalanced(b, costs, pk, found, issued);
    case CheckAccount(pk, found, answer, issued) =>
      InvoiceInfoBalanced(b, costs, pk, None, issued);
      if found.Some? && found.value in b.invoices && answer.Some? {
        RecordBalanced(b, costs, found.value, answer.value);
        AdmitBalanced(RecordAnswer(b, found.value, answer.value), costs, pk);
      }
    case InvoicePaid(hash, answer) =>
      if answer.Some? && hash in b.invoices {
        RecordBalanced(b, costs, hash, answer.value);
        var b' := RecordAnswer(b, hash, answer.value);
        UpdateBalanced(b', costs, hash, Paid);
        AdmitBalanced(UpdateInvoice(b', hash, Paid), costs, b'.invoices[hash].pubkey);
      }
    case PaidWrite(pk, written) => WriteBalanced(b, costs, pk, written);
  }

  /**
   * Conservation. From any balanced books and after any interleaving of messages and writes, the
   * balance of every account, plus the admission cost of every admission, plus the cost of every
   * charged event, is the sum of the invoice amounts credited to it.
   */
  lemma {:induction false} Conservation(b: Books, costs: Costs, ms: seq<Message>)
    requires Balanced(b, costs)
    ensures Balanced(HandleAll(b, costs, ms), costs)
  {
    if ms != [] {
      Conservation(b, costs, ms[..|ms| - 1]);
      HandleBalanced(HandleAll(b, costs, ms[..|ms| - 1]), costs, ms[|ms| - 1]);
    }
  }

  lemma OpeningBalanced(costs: Costs)
    ensures Balanced(OPENING, costs)
  {
    assert forall pk :: Explained(OPENING, costs, pk);
  }

  // ---------------------------------------------------------------------------------------
  // Each invoice is credited at most once
  // ---------------------------------------------------------------------------------------

  /** Once the processor has called an invoice paid, it keeps saying so. */
  predicate NeverRetracts(answers: seq<Answer>) {
    forall i, j :: 0 <= i < j < |answers| && answers[i].hash == answers[j].hash && answers[i].status.Paid? ==>
                     answers[j].status.Paid?
  }

  predicate CreditsOnce(credits: seq<Credit>) {
    forall i, j :: 0 <= i < j < |credits| ==> credits[i].hash != credits[j].hash
  }

  predicate AnsweredPaid(answers: seq<Answer>, hash: string) {
    exists j :: 0 <= j < |answers| && answers[j] == Answer(hash, Paid)
  }

  /** Invoices called paid are Paid, and only those were credited, once each. */
  predicate CreditsTidy(b: Books) {
    && (forall j :: 0 <= j < |b.answers| && b.answers[j].status.Paid? ==>
          b.answers[j].hash in b.invoices && b.invoices[b.answers[j].hash].status.Paid?)
    && (forall i :: 0 <= i < |b.credits| ==> AnsweredPaid(b.answers, b.credits[i].hash))
    && CreditsOnce(b.credits)
  }

  lemma AnsweredStays(answers: seq<Answer>, a: Answer, hash: string)
    requires AnsweredPaid(answers, hash)
    ensures AnsweredPaid(answers + [a], hash)
  {
    assert AnsweredPaid(answers, hash);
    var j :| 0 <= j < |answers| && answers[j] == Answer(hash, Paid);
    assert (answers + [a])[j] == answers[j];
  }

  lemma RecordTidy(b: Books, hash: string, status: Status)
    requires CreditsTidy(b) && hash in b.invoices && NeverRetracts(b.answers + [Answer(hash, status)])
    ensures CreditsTidy(RecordAnswer(b, hash, status))
  {
    var b' := RecordAnswer(b, hash, status);
    assert b'.answers[|b.answers|] == Answer(hash, status);
    forall j | 0 <= j < |b'.answers| && b'.answers[j].status.Paid?
      ensures b'.answers[j].hash in b'.invoices && b'.invoices[b'.answers[j].hash].status.Paid?
    {
      assert j < |b.answers| ==> b'.answers[j] == b.answers[j];
    }
    forall i | 0 <= i < |b'.credits|
      ensures AnsweredPaid(b'.answers, b'.credits[i].hash)
    {
      if i < |b.credits| {
        AnsweredStays(b.answers, Answer(hash, status), b.credits[i].hash);
      }
    }
  }

  /** The second update of a paid invoice credits nothing. */
  lemma SecondUpdateTidy(b: Books, hash: string)
    requires CreditsTidy(b) && hash in b.invoices && b.invoices[hash].status.Paid?
    ensures CreditsTidy(UpdateInvoice(b, hash, Paid)) && UpdateInvoice(b, hash, Paid).credits == b.credits
  {
  }

  lemma InvoicePaidTidy(b: Books, costs: Costs, hash: string, answer: Option<Status>)
    requires CreditsTidy(b) && NeverRetracts(OnInvoicePaid(b, costs, hash, answer).answers)
    ensures CreditsTidy(OnInvoicePaid(b, costs, hash, answer))
  {
    if answer.Some? && hash in b.invoices {
      RecordTidy(b, hash, answer.value);
      if answer.value.Paid? {
        SecondUpdateTidy(RecordAnswer(b, hash, Paid), hash);
      }
    }
  }

  lemma InvoiceInfoTidy(b: Books, costs: Costs, pk: string, found: Option<string>, issued: Issued)
    requires CreditsTidy(b)
    ensures CreditsTidy(GetInvoiceInfo(b, costs, pk, found, issued))
  {
    InvoiceInfoFields(b, costs, pk, found, issued);
  }

  lemma HandleTidy(b: Books, costs: Costs, m: Message)
    requires CreditsTidy(b) && NeverRetracts(Handle(b, costs, m).answers)
    ensures CreditsTidy(Handle(b, costs, m))
  {
    match m
    case NewAccount(pk, found, issued) => InvoiceInfoTidy(b, costs, pk, found, issued);
    case CheckAccount(pk, found, answer, issued) =>
      if found.None? || found.value !in b.invoices {
        InvoiceInfoTidy(b, costs, pk, None, issued);
      } else if answer.Some? {
        RecordTidy(b, found.value, answer.value);
      }
    case InvoicePaid(hash, answer) => InvoicePaidTidy(b, costs, hash, answer);
    case PaidWrite(_, _) =>
  }

  lemma AnswersGrow(b: Books, costs: Costs, m: Message)
    ensures b.answers <= Handle(b, costs, m).answers
  {
  }

  /**
   * Each invoice is credited at most once if the processor never retracts a payment, although
   * the paid callback updates the invoice twice.
   */
  lemma {:induction false} CreditedAtMostOnce(costs: Costs, ms: seq<Message>)
    requires NeverRetracts(HandleAll(OPENING, costs, ms).answers)
    ensures CreditsTidy(HandleAll(OPENING, costs, ms))
  {
    if ms != [] {
      var b := HandleAll(OPENING, costs, ms[..|ms| - 1]);
      var m := ms[|ms| - 1];
      AnswersGrow(b, costs, m);
      assert NeverRetracts(b.answers);
      CreditedAtMostOnce(costs, ms[..|ms| - 1]);
      HandleTidy(b, costs, m);
    }
  }

  /** What the processor said last of an invoice; Unpaid if it said nothing. */
  function LastAnswer(answers: seq<Answer>, hash: string): Status {
    if answers == [] then Unpaid
    else
      var last := answers[|answers| - 1];
      if last.hash == hash then last.status else LastAnswer(answers[..|answers| - 1], hash)
  }

  /** How often the answers for an invoice went from Unpaid to Paid. */
  function Rises(answers: seq<Answer>, hash: string): nat {
    if answers == [] then 0
    else
      var before, last := answers[..|answers| - 1], answers[|answers| - 1];
      Rises(before, hash) + (if last == Answer(hash, Paid) && LastAnswer(before, hash).Unpaid? then 1 else 0)
  }

  function CreditCount(credits: seq<Credit>, hash: string): nat {
    if credits == [] then 0
    else CreditCount(credits[..|credits| - 1], hash) + (if credits[|credits| - 1].hash == hash then 1 else 0)
  }

  /** The stored status is the last answer, and every rise was credited. */
  predicate Tracked(b: Books, hash: string) {
    && LastAnswer(b.answers, hash) == (if hash in b.invoices then b.invoices[hash].status else Unpaid)
    && CreditCount(b.credits, hash) == Rises(b.answers, hash)
  }

  lemma AnswersSnoc(answers: seq<Answer>, a: Answer, hash: string)
    ensures LastAnswer(answers + [a], hash) == if a.hash == hash then a.status else LastAnswer(answers, hash)
    ensures Rises(answers + [a], hash)
            == Rises(answers, hash) + (if a == Answer(hash, Paid) && LastAnswer(answers, hash).Unpaid? then 1 else 0)
  {
    assert (answers + [a])[..|answers|] == answers;
  }

  lemma CreditCountSnoc(credits: seq<Credit>, c: Credit, hash: string)
    ensures CreditCount(credits + [c], hash) == CreditCount(credits, hash) + (if c.hash == hash then 1 else 0)
  {
    assert (credits + [c])[..|credits|] == credits;
  }

  /** What a recorded answer changes. */
  lemma RecordedFields(b: Books, h: string, status: Status)
    requires h in b.invoices
    ensures RecordAnswer(b, h, status).answers == b.answers + [Answer(h, status)]
    ensures RecordAnswer(b, h, status).invoices == b.invoices[h := b.invoices[h].(status := status)]
    ensures RecordAnswer(b, h, status).credits
            == if b.invoices[h].status.Unpaid? && status.Paid?
               then b.credits + [Credit(h, b.invoices[h].pubkey, b.invoices[h].amount)]
               else b.credits
  {
  }

  lemma RecordTracked(b: Books, h: string, status: Status, hash: string)
    requires Tracked(b, hash) && h in b.invoices
    ensures Tracked(RecordAnswer(b, h, status), hash)
  {
    RecordedFields(b, h, status);
    AnswersSnoc(b.answers, Answer(h, status), hash);
    CreditCountSnoc(b.credits, Credit(h, b.invoices[h].pubkey, b.invoices[h].amount), hash);
  }

  lemma InvoiceInfoTracked(b: Books, costs: Costs, pk: string, found: Option<string>, issued: Issued, hash: string)
    requires Tracked(b, hash)
    ensures Tracked(GetInvoiceInfo(b, costs, pk, found, issued), hash)
  {
    var b' := GetInvoiceInfo(b, costs, pk, found, issued);
    assert b'.answers == b.answers && b'.credits == b.credits;
  }

  lemma HandleTracked(b: Books, costs: Costs, m: Message, hash: string)
    requires Tracked(b, hash)
    ensures Tracked(Handle(b, costs, m), hash)
  {
    match m
    case NewAccount(pk, found, issued) => InvoiceInfoTracked(b, costs, pk, found, issued, hash);
    case CheckAccount(pk, found, answer, issued) =>
      if found.None? || found.value !in b.invoices {
        InvoiceInfoTracked(b, costs, pk, None, issued, hash);
      } else if answer.Some? {
        RecordTracked(b, found.value, answer.value, hash);
      }
    case InvoicePaid(h, answer) =>
      if answer.Some? && h in b.invoices {
        RecordTracked(b, h, answer.value, hash);
        if answer.value.Paid? { SecondUpdateSame(b, h); }
      }
    case PaidWrite(_, _) =>
  }

  /**
   * Exactly how often an invoice is credited, in any run and with any processor: as often as its
   * answers went from Unpaid to Paid. So it is credited more than once exactly when a payment was
   * retracted to Unpaid and then confirmed again.
   */
  lemma {:induction false} CreditsAreRises(costs: Costs, ms: seq<Message>, hash: string)
    ensures CreditCount(HandleAll(OPENING, costs, ms).credits, hash) == Rises(HandleAll(OPENING, costs, ms).answers, hash)
    ensures Tracked(HandleAll(OPENING, costs, ms), hash)
  {
    if ms != [] {
      CreditsAreRises(costs, ms[..|ms| - 1], hash);
      HandleTracked(HandleAll(OPENING, costs, ms[..|ms| - 1]), costs, ms[|ms| - 1], hash);
    }
  }

  lemma HandleAllSnoc(b: Books, costs: Costs, ms: seq<Message>, m: Message)
    ensures HandleAll(b, costs, ms + [m]) == Handle(HandleAll(b, costs, ms), costs, m)
  {
    assert (ms + [m])[..|ms|] == ms;
  }

  /** A retraction and a second confirmation of an open invoice credit it twice. */
  lemma PaidTwice(b: Books, costs: Costs, hash: string)
    requires InvoicesOwned(b) && hash in b.invoices && b.invoices[hash].status.Unpaid?
    ensures var c := Credit(hash, b.invoices[hash].pubkey, b.invoices[hash].amount);
            var b1 := OnInvoicePaid(b, costs, hash, Some(Paid));
            OnInvoicePaid(OnInvoicePaid(b1, costs, hash, Some(Unpaid)), costs, hash, Some(Paid)).credits
            == b.credits + [c] + [c]
  {
  }

  /** Whatever happened before, answers Paid, Unpaid and Paid to callbacks credit an open invoice twice. */
  lemma RetractionCreditsTwice(costs: Costs, ms: seq<Message>, hash: string)
    requires var b := HandleAll(OPENING, costs, ms); hash in b.invoices && b.invoices[hash].status.Unpaid?
    ensures var paid, unpaid := InvoicePaid(hash, Some(Paid)), InvoicePaid(hash, Some(Unpaid));
            CreditCount(HandleAll(OPENING, costs, ms + [paid] + [unpaid] + [paid]).credits, hash)
            == CreditCount(HandleAll(OPENING, costs, ms).credits, hash) + 2
  {
    var paid, unpaid := InvoicePaid(hash, Some(Paid)), InvoicePaid(hash, Some(Unpaid));
    var b := HandleAll(OPENING, costs, ms);
    HandleAllSnoc(OPENING, costs, ms, paid);
    HandleAllSnoc(OPENING, costs, ms + [paid], unpaid);
    HandleAllSnoc(OPENING, costs, ms + [paid] + [unpaid], paid);
    OpeningBalanced(costs);
    Conservation(OPENING, costs, ms);
    PaidTwice(b, costs, hash);
    var c := Credit(hash, b.invoices[hash].pubkey, b.invoices[hash].amount);
    CreditCountSnoc(b.credits, c, hash);
    CreditCountSnoc(b.credits + [c], c, hash);
  }

  // ---------------------------------------------------------------------------------------
  // Admitted are exactly those who paid
  // ---------------------------------------------------------------------------------------

  /** The processor has called an invoice of this account paid. */
  predicate HasPaid(b: Books, pk: string) {
    exists j :: 0 <= j < |b.answers| && b.answers[j].status.Paid?
                && b.answers[j].hash in b.invoices && b.invoices[b.answers[j].hash].pubkey == pk
  }

  predicate IsAdmitted(b: Books, pk: string) {
    pk in b.accounts && b.accounts[pk].admitted
  }

  /** Answers are about invoices on record. */
  predicate AnswersKnown(b: Books) {
    forall j :: 0 <= j < |b.answers| ==> b.answers[j].hash in b.invoices
  }

  ghost predicate AdmittedHavePaid(b: Books) {
    && InvoicesOwned(b) && AnswersKnown(b)
    && forall pk :: IsAdmitted(b, pk) <==> HasPaid(b, pk)
  }

  /** Answers are kept, and invoices keep their owners. */
  predicate Extends(b: Books, b': Books) {
    b.answers <= b'.answers
    && forall h :: h in b.invoices ==> h in b'.invoices && b'.invoices[h].pubkey == b.invoices[h].pubkey
  }

  lemma PaidStays(b: Books, b': Books, pk: string)
    requires Extends(b, b') && HasPaid(b, pk)
    ensures HasPaid(b', pk)
  {
    var j :| 0 <= j < |b.answers| && b.answers[j].status.Paid?
             && b.answers[j].hash in b.invoices && b.invoices[b.answers[j].hash].pubkey == pk;
    assert b'.answers[j] == b.answers[j];
  }

  lemma RecordedPaid(b: Books, hash: string)
    requires hash in b.invoices
    ensures HasPaid(RecordAnswer(b, hash, Paid), b.invoices[hash].pubkey)
  {
    var b' := RecordAnswer(b, hash, Paid);
    assert b'.answers[|b.answers|] == Answer(hash, Paid);
  }

  lemma InvoiceInfoExtends(b: Books, costs: Costs, pk: string, found: Option<string>, issued: Issued)
    ensures Extends(b, GetInvoiceInfo(b, costs, pk, found, issued))
  {
  }

  lemma RecordExtends(b: Books, hash: string, status: Status)
    requires hash in b.invoices
    ensures Extends(b, RecordAnswer(b, hash, status))
  {
  }

  lemma HandleOwned(b: Books, costs: Costs, m: Message)
    requires InvoicesOwned(b)
    ensures InvoicesOwned(Handle(b, costs, m))
  {
  }

  lemma HandleExtends(b: Books, costs: Costs, m: Message)
    ensures Extends(b, Handle(b, costs, m))
  {
    match m
    case NewAccount(pk, found, issued) => InvoiceInfoExtends(b, costs, pk, found, issued);
    case CheckAccount(pk, found, answer, issued) =>
      InvoiceInfoExtends(b, costs, pk, None, issued);
      if found.Some? && found.value in b.invoices && answer.Some? {
        RecordExtends(b, found.value, answer.value);
      }
    case InvoicePaid(hash, answer) =>
      if answer.Some? && hash in b.invoices {
        RecordExtends(b, hash, answer.value);
        if answer.value.Paid? { SecondUpdateSame(b, hash); }
      }
    case PaidWrite(_, _) =>
  }

  /** Whom a message newly admits has paid by then. */
  lemma NewlyAdmitted(b: Books, costs: Costs, m: Message, pk: string)
    requires Possible(b, m) && IsAdmitted(Handle(b, costs, m), pk) && !IsAdmitted(b, pk)
    ensures HasPaid(Handle(b, costs, m), pk)
  {
    match m
    case NewAccount(_, _, _) =>
    case CheckAccount(_, found, answer, _) =>
      if found.Some? && answer == Some(Paid) {
        RecordedPaid(b, found.value);
        AdmissionKeepsPaid(RecordAnswer(b, found.value, Paid), b.invoices[found.value].pubkey, costs);
      }
    case InvoicePaid(hash, answer) =>
      if hash in b.invoices && answer == Some(Paid) {
        SecondUpdateSame(b, hash);
        RecordedPaid(b, hash);
        AdmissionKeepsPaid(RecordAnswer(b, hash, Paid), b.invoices[hash].pubkey, costs);
      }
    case PaidWrite(_, _) =>
  }

  lemma AdmissionKeepsPaid(b: Books, pk: string, costs: Costs)
    requires HasPaid(b, pk)
    ensures HasPaid(AdmitAccount(b, pk, costs.admission), pk)
  {
    PaidStays(b, AdmitAccount(b, pk, costs.admission), pk);
  }

  /** An admission is never taken back. */
  lemma AdmittedStays(b: Books, costs: Costs, m: Message, pk: string)
    requires IsAdmitted(b, pk)
    ensures IsAdmitted(Handle(b, costs, m), pk)
  {
  }

  /** A recorded answer, other than Paid, pays for nobody. */
  lemma PaidBefore(b: Books, hash: string, status: Status, pk: string)
    requires hash in b.invoices && AnswersKnown(b) && HasPaid(RecordAnswer(b, hash, status), pk)
    ensures HasPaid(b, pk) || (status.Paid? && b.invoices[hash].pubkey == pk)
  {
    var b' := RecordAnswer(b, hash, status);
    RecordedFields(b, hash, status);
    var j :| 0 <= j < |b'.answers| && b'.answers[j].status.Paid?
             && b'.answers[j].hash in b'.invoices && b'.invoices[b'.answers[j].hash].pubkey == pk;
    if j < |b.answers| {
      assert b'.answers[j] == b.answers[j];
    }
  }

  /** Whoever has paid only now is admitted now. */
  lemma NewlyPaid(b: Books, costs: Costs, m: Message, pk: string)
    requires Possible(b, m) && InvoicesOwned(b) && AnswersKnown(b)
    requires HasPaid(Handle(b, costs, m), pk) && !HasPaid(b, pk)
    ensures IsAdmitted(Handle(b, costs, m), pk)
  {
    match m
    case NewAccount(p, found, issued) => InvoicesPayNothing(b, GetInvoiceInfo(b, costs, p, found, issued), pk);
    case CheckAccount(p, found, answer, issued) =>
      if found.None? {
        InvoicesPayNothing(b, GetInvoiceInfo(b, costs, p, None, issued), pk);
      } else if answer.Some? {
        InvoicesPayNothing(RecordAnswer(b, found.value, answer.value), Handle(b, costs, m), pk);
        PaidBefore(b, found.value, answer.value, pk);
      }
    case InvoicePaid(hash, answer) =>
      if hash in b.invoices && answer.Some? {
        if answer.value.Paid? { SecondUpdateSame(b, hash); }
        InvoicesPayNothing(RecordAnswer(b, hash, answer.value), Handle(b, costs, m), pk);
        PaidBefore(b, hash, answer.value, pk);
      }
    case PaidWrite(_, _) =>
  }

  /** Without a new answer nobody has newly paid. */
  lemma InvoicesPayNothing(b: Books, b': Books, pk: string)
    requires AnswersKnown(b) && b'.answers == b.answers
    requires forall h :: h in b.invoices ==> h in b'.invoices && b'.invoices[h].pubkey == b.invoices[h].pubkey
    ensures HasPaid(b', pk) ==> HasPaid(b, pk)
  {
  }

  lemma RecordKeepsKnown(b: Books, hash: string, status: Status)
    requires AnswersKnown(b) && hash in b.invoices
    ensures AnswersKnown(RecordAnswer(b, hash, status))
  {
    RecordedFields(b, hash, status);
  }

  lemma HandleKeepsKnown(b: Books, costs: Costs, m: Message)
    requires AnswersKnown(b)
    ensures AnswersKnown(Handle(b, costs, m))
  {
    match m
    case NewAccount(_, _, _) =>
    case CheckAccount(_, found, answer, _) =>
      if found.Some? && found.value in b.invoices && answer.Some? {
        RecordKeepsKnown(b, found.value, answer.value);
      }
    case InvoicePaid(hash, answer) =>
      if hash in b.invoices && answer.Some? {
        RecordKeepsKnown(b, hash, answer.value);
        if answer.value.Paid? { SecondUpdateSame(b, hash); }
      }
    case PaidWrite(_, _) =>
  }

  lemma HandleKeepsPaid(b: Books, costs: Costs, m: Message)
    requires Possible(b, m) && AdmittedHavePaid(b)
    ensures AdmittedHavePaid(Handle(b, costs, m))
  {
    HandleExtends(b, costs, m);
    HandleOwned(b, costs, m);
    HandleKeepsKnown(b, costs, m);
    var b' := Handle(b, costs, m);
    forall pk
      ensures IsAdmitted(b', pk) <==> HasPaid(b', pk)
    {
      if HasPaid(b, pk) {
        PaidStays(b, b', pk);
        AdmittedStays(b, costs, m, pk);
      } else {
        if HasPaid(b', pk) { NewlyPaid(b, costs, m, pk); }
        if IsAdmitted(b', pk) { NewlyAdmitted(b, costs, m, pk); }
      }
    }
  }

  lemma PrefixPossible(b: Books, costs: Costs, ms: seq<Message>)
    requires ms != [] && AllPossible(b, costs, ms)
    ensures AllPossible(b, costs, ms[..|ms| - 1])
    ensures Possible(HandleAll(b, costs, ms[..|ms| - 1]), ms[|ms| - 1])
  {
    var rest := ms[..|ms| - 1];
    forall i | 0 <= i < |rest|
      ensures Possible(HandleAll(b, costs, rest[..i]), rest[i])
    {
      assert rest[..i] == ms[..i] && rest[i] == ms[i];
    }
  }

  /**
   * Admitted are exactly those who paid: in every run an account is admitted exactly when the
   * processor has called an invoice of it paid, even if it retracted that since.
   */
  lemma {:induction false} AdmittedIffPaid(b: Books, costs: Costs, ms: seq<Message>)
    requires AdmittedHavePaid(b) && AllPossible(b, costs, ms)
    ensures AdmittedHavePaid(HandleAll(b, costs, ms))
  {
    if ms != [] {
      PrefixPossible(b, costs, ms);
      AdmittedIffPaid(b, costs, ms[..|ms| - 1]);
      HandleKeepsPaid(HandleAll(b, costs, ms[..|ms| - 1]), costs, ms[|ms| - 1]);
    }
  }

  // ---------------------------------------------------------------------------------------
  // Non-negative balances
  // ---------------------------------------------------------------------------------------

  /** No debts, and open invoices are for exactly the admission cost. */
  predicate Solvent(b: Books, costs: Costs) {
    && InvoicesOwned(b)
    && (forall pk :: pk in b.accounts ==> b.accounts[pk].balance >= 0)
    && (forall h :: h in b.invoices && b.invoices[h].status.Unpaid? ==> b.invoices[h].amount == costs.admission)
  }

  /** A paid callback names an invoice that is still open, or none the relay knows. */
  predicate NamesOpenInvoice(b: Books, m: Message) {
    m.InvoicePaid? && m.hash in b.invoices ==> b.invoices[m.hash].status.Unpaid?
  }

  /** What the account has, plus what it paid for events. */
  function Kept(b: Books, costs: Costs, pk: string): int {
    Balance(b, pk) + Taken(b.charges, pk, costs.perEvent)
  }

  /** The settlement of an invoice moves its account by the credit, if any, minus the admission cost. */
  lemma SettlementNet(b: Books, costs: Costs, hash: string, pk: string)
    requires InvoicesOwned(b) && hash in b.invoices
    ensures var owner := b.invoices[hash].pubkey;
            var credit := if b.invoices[hash].status.Unpaid? then b.invoices[hash].amount else 0;
            Balance(OnInvoicePaid(b, costs, hash, Some(Paid)), pk)
            == Balance(b, pk) + (if pk == owner then credit - costs.admission else 0)
  {
  }

  /**
   * Exactly when a settled callback keeps the books free of debts: the invoice was still open, or
   * its owner has the admission cost to pay once more.
   */
  lemma SettlementSolventExactly(b: Books, costs: Costs, hash: string)
    requires Solvent(b, costs) && hash in b.invoices
    ensures Solvent(OnInvoicePaid(b, costs, hash, Some(Paid)), costs) <==>
              b.invoices[hash].status.Unpaid? || Balance(b, b.invoices[hash].pubkey) >= costs.admission
  {
    var b' := OnInvoicePaid(b, costs, hash, Some(Paid));
    var owner := b.invoices[hash].pubkey;
    assert b'.accounts.Keys == b.accounts.Keys && b'.invoices.Keys == b.invoices.Keys;
    SettlementNet(b, costs, hash, owner);
    assert b'.accounts[owner].balance == Balance(b', owner);
    forall pk | pk in b'.accounts && pk != owner
      ensures b'.accounts[pk].balance >= 0
    {
      assert b'.accounts[pk] == b.accounts[pk];
    }
  }

  /** Marking an open invoice paid and admitting its owner leaves every balance as it was. */
  lemma SettledSolvent(b: Books, costs: Costs, hash: string)
    requires Solvent(b, costs) && hash in b.invoices && b.invoices[hash].status.Unpaid?
    ensures var b' := AdmitAccount(RecordAnswer(b, hash, Paid), b.invoices[hash].pubkey, costs.admission);
            Solvent(b', costs) && b'.charges == b.charges && forall pk :: Balance(b', pk) == Balance(b, pk)
  {
  }

  lemma RecordedSolvent(b: Books, costs: Costs, hash: string, status: Status)
    requires Solvent(b, costs) && hash in b.invoices && b.invoices[hash].status.Unpaid? && !status.Paid?
    ensures Solvent(RecordAnswer(b, hash, status), costs)
    ensures RecordAnswer(b, hash, status).accounts == b.accounts && RecordAnswer(b, hash, status).charges == b.charges
  {
  }

  lemma ChargeSolvent(b: Books, costs: Costs, pk: string)
    requires Solvent(b, costs) && MayWrite(b, costs, pk)
    ensures Solvent(Charge(b, pk, costs.perEvent), costs)
  {
    var b' := Charge(b, pk, costs.perEvent);
    assert b'.accounts.Keys == b.accounts.Keys && b'.invoices == b.invoices;
  }

  lemma ChargeKeeps(b: Books, costs: Costs, pk: string, p: string)
    requires pk in b.accounts
    ensures Kept(Charge(b, pk, costs.perEvent), costs, p) == Kept(b, costs, p)
  {
    TakenSnoc(b.charges, pk, p, costs.perEvent);
  }

  lemma InvoicePaidSolvent(b: Books, costs: Costs, hash: string, answer: Option<Status>, p: string)
    requires Solvent(b, costs) && (hash in b.invoices ==> b.invoices[hash].status.Unpaid?)
    ensures Solvent(OnInvoicePaid(b, costs, hash, answer), costs)
    ensures Kept(OnInvoicePaid(b, costs, hash, answer), costs, p) == Kept(b, costs, p)
  {
    if answer.Some? && hash in b.invoices {
      if answer.value.Paid? {
        SettledSolvent(b, costs, hash);
        SecondUpdateSame(b, hash);
      } else {
        RecordedSolvent(b, costs, hash, answer.value);
      }
    }
  }

  lemma CheckAccountSolvent(b: Books, costs: Costs, pk: string, found: Option<string>, answer: Option<Status>, issued: Issued, p: string)
    requires Solvent(b, costs) && CanFind(b, pk, found)
    ensures Solvent(OnCheckAccount(b, costs, pk, found, answer, issued), costs)
    ensures Kept(OnCheckAccount(b, costs, pk, found, answer, issued), costs, p) == Kept(b, costs, p)
  {
    if found.Some? && answer.Some? {
      if answer.value.Paid? {
        SettledSolvent(b, costs, found.value);
      } else {
        RecordedSolvent(b, costs, found.value, answer.value);
      }
    }
  }

  lemma HandleSolvent(b: Books, costs: Costs, m: Message, p: string)
    requires Solvent(b, costs) && Possible(b, m) && NamesOpenInvoice(b, m)
    ensures Solvent(Handle(b, costs, m), costs)
    ensures Kept(Handle(b, costs, m), costs, p) == Kept(b, costs, p)
  {
    match m
    case NewAccount(_, _, _) =>
    case CheckAccount(pk, found, answer, issued) => CheckAccountSolvent(b, costs, pk, found, answer, issued, p);
    case InvoicePaid(hash, answer) => InvoicePaidSolvent(b, costs, hash, answer, p);
    case PaidWrite(pk, written) =>
      if MayWrite(b, costs, pk) {
        ChargeSolvent(b, costs, pk);
        ChargeKeeps(b, costs, pk, p);
      }
  }

  lemma SecondUpdateSame(b: Books, hash: string)
    requires hash in b.invoices
    ensures UpdateInvoice(RecordAnswer(b, hash, Paid), hash, Paid) == RecordAnswer(b, hash, Paid)
  {
    var b' := RecordAnswer(b, hash, Paid);
    assert b'.invoices[hash := b'.invoices[hash].(status := Paid)] == b'.invoices;
  }

  ghost predicate AllNameOpen(b: Books, costs: Costs, ms: seq<Message>) {
    forall i :: 0 <= i < |ms| ==> NamesOpenInvoice(HandleAll(b, costs, ms[..i]), ms[i])
  }

  lemma PrefixMessages(b: Books, costs: Costs, ms: seq<Message>)
    requires ms != [] && AllPossible(b, costs, ms) && AllNameOpen(b, costs, ms)
    ensures AllPossible(b, costs, ms[..|ms| - 1]) && AllNameOpen(b, costs, ms[..|ms| - 1])
    ensures var before := HandleAll(b, costs, ms[..|ms| - 1]);
            Possible(before, ms[|ms| - 1]) && NamesOpenInvoice(before, ms[|ms| - 1])
  {
    PrefixPossible(b, costs, ms);
    var rest := ms[..|ms| - 1];
    forall i | 0 <= i < |rest|
      ensures NamesOpenInvoice(HandleAll(b, costs, rest[..i]), rest[i])
    {
      assert rest[..i] == ms[..i] && rest[i] == ms[i];
    }
  }

  /**
   * Non-negative balances. From any solvent books, if every paid callback names an open invoice,
   * no balance ever goes below zero, and settlements net zero: the only thing that lowers what an
   * account has is what it pays for its events.
   */
  lemma {:induction false} NonNegativeBalances(b: Books, costs: Costs, ms: seq<Message>, pk: string)
    requires Solvent(b, costs) && AllPossible(b, costs, ms) && AllNameOpen(b, costs, ms)
    ensures Solvent(HandleAll(b, costs, ms), costs)
    ensures Kept(HandleAll(b, costs, ms), costs, pk) == Kept(b, costs, pk)
  {
    if ms != [] {
      PrefixMessages(b, costs, ms);
      NonNegativeBalances(b, costs, ms[..|ms| - 1], pk);
      HandleSolvent(HandleAll(b, costs, ms[..|ms| - 1]), costs, ms[|ms| - 1], pk);
    }
  }

  // ---------------------------------------------------------------------------------------
  // Nobody can pay for an event
  // ---------------------------------------------------------------------------------------

  /** Every invoice is for the admission cost, nobody has money, and nobody was charged. */
  predicate NobodyHasMoney(b: Books, costs: Costs) {
    && InvoicesOwned(b)
    && (forall h :: h in b.invoices ==> b.invoices[h].amount == costs.admission)
    && (forall pk :: pk in b.accounts ==> b.accounts[pk].balance <= 0)
    && b.charges == []
  }

  lemma InvoiceInfoMoney(b: Books, costs: Costs, pk: string, found: Option<string>, issued: Issued)
    requires NobodyHasMoney(b, costs)
    ensures NobodyHasMoney(GetInvoiceInfo(b, costs, pk, found, issued), costs)
  {
  }

  /** A credit goes with an admission, which takes at least as much. */
  lemma SettledMoney(b: Books, costs: Costs, hash: string)
    requires NobodyHasMoney(b, costs) && hash in b.invoices
    ensures NobodyHasMoney(AdmitAccount(RecordAnswer(b, hash, Paid), b.invoices[hash].pubkey, costs.admission), costs)
  {
  }

  lemma RecordedMoney(b: Books, costs: Costs, hash: string, status: Status)
    requires NobodyHasMoney(b, costs) && hash in b.invoices && !status.Paid?
    ensures NobodyHasMoney(RecordAnswer(b, hash, status), costs)
  {
  }

  lemma HandleMoney(b: Books, costs: Costs, m: Message)
    requires NobodyHasMoney(b, costs) && Possible(b, m)
    ensures NobodyHasMoney(Handle(b, costs, m), costs)
  {
    match m
    case NewAccount(pk, found, issued) => InvoiceInfoMoney(b, costs, pk, found, issued);
    case CheckAccount(pk, found, answer, issued) =>
      if found.None? {
        InvoiceInfoMoney(b, costs, pk, None, issued);
      } else if answer == Some(Paid) {
        SettledMoney(b, costs, found.value);
      } else if answer.Some? {
        RecordedMoney(b, costs, found.value, answer.value);
      }
    case InvoicePaid(hash, answer) =>
      if hash in b.invoices && answer == Some(Paid) {
        SecondUpdateSame(b, hash);
        SettledMoney(b, costs, hash);
      } else if hash in b.invoices && answer.Some? {
        RecordedMoney(b, costs, hash, answer.value);
      }
    case PaidWrite(_, _) =>
  }

  /**
   * In every run from empty books, with any processor, retractions and repeated callbacks
   * included, no balance is ever positive and no event is ever charged: every credit goes with
   * an admission that takes as much. So where events cost something, nobody can pay for one.
   */
  lemma {:induction false} NobodyCanPayPerEvent(costs: Costs, ms: seq<Message>)
    requires AllPossible(OPENING, costs, ms)
    ensures forall pk :: Balance(HandleAll(OPENING, costs, ms), pk) <= 0
    ensures HandleAll(OPENING, costs, ms).charges == []
    ensures costs.perEvent > 0 ==> forall pk :: !MayWrite(HandleAll(OPENING, costs, ms), costs, pk)
    ensures NobodyHasMoney(HandleAll(OPENING, costs, ms), costs)
  {
    if ms != [] {
      PrefixPossible(OPENING, costs, ms);
      NobodyCanPayPerEvent(costs, ms[..|ms| - 1]);
      HandleMoney(HandleAll(OPENING, costs, ms[..|ms| - 1]), costs, ms[|ms| - 1]);
    }
  }

  // ---------------------------------------------------------------------------------------
  // Who may write
  // ---------------------------------------------------------------------------------------

  /**
   * The lookup of an open invoice always has an answer, and it is a latest one: an unpaid invoice
   * of the account as late as any other, or none if there is none.
   */
  lemma LookupMeans(b: Books, pk: string) returns (found: Option<string>)
    ensures CanFind(b, pk, found)
    ensures forall h :: CanFind(b, pk, Some(h)) <==>
              h in b.invoices && b.invoices[h].pubkey == pk && b.invoices[h].status == Unpaid
              && forall g :: g in b.invoices && b.invoices[g].pubkey == pk && b.invoices[g].status == Unpaid ==>
                               b.invoices[g].createdAt <= b.invoices[h].createdAt
    ensures CanFind(b, pk, None) <==>
              forall g :: g in b.invoices && b.invoices[g].pubkey == pk ==> b.invoices[g].status != Unpaid
  {
    var open := set h | h in b.invoices && IsUnpaidOf(b, pk, h);
    assert forall h :: h in b.invoices && IsUnpaidOf(b, pk, h) ==> h in open;
    if open == {} {
      found := None;
    } else {
      var times := set h | h in open :: b.invoices[h].createdAt;
      var some :| some in open;
      assert b.invoices[some].createdAt in times;
      var latest := Maximum(times);
      var h :| h in open && b.invoices[h].createdAt == latest;
      assert forall g :: g in open ==> b.invoices[g].createdAt in times;
      found := Some(h);
    }
  }

  lemma OpeningPaid()
    ensures AdmittedHavePaid(OPENING)
  {
  }

  /** Over all runs: whoever may write has an invoice that the processor called paid. */
  lemma WritersHavePaid(costs: Costs, ms: seq<Message>, pk: string)
    requires AllPossible(OPENING, costs, ms)
    requires MayWrite(HandleAll(OPENING, costs, ms), costs, pk)
    ensures var b := HandleAll(OPENING, costs, ms);
            && pk in b.accounts && costs.perEvent <= b.accounts[pk].balance
            && exists j :: 0 <= j < |b.answers| && b.answers[j].status == Paid
                           && b.answers[j].hash in b.invoices && b.invoices[b.answers[j].hash].pubkey == pk
  {
    OpeningPaid();
    AdmittedIffPaid(OPENING, costs, ms);
    var b := HandleAll(OPENING, costs, ms);
    assert IsAdmitted(b, pk);
    var j :| 0 <= j < |b.answers| && b.answers[j].status.Paid?
             && b.answers[j].hash in b.invoices && b.invoices[b.answers[j].hash].pubkey == pk;
    assert b.answers[j].status == Paid;
  }

  /** Over all runs, where events cost nothing: exactly those may write who have paid and have no debt. */
  lemma FreeWritersExactly(costs: Costs, ms: seq<Message>, pk: string)
    requires AllPossible(OPENING, costs, ms) && costs.perEvent == 0
    ensures var b := HandleAll(OPENING, costs, ms);
            MayWrite(b, costs, pk) <==>
              pk in b.accounts && 0 <= b.accounts[pk].balance
              && exists j :: 0 <= j < |b.answers| && b.answers[j].status == Paid
                             && b.answers[j].hash in b.invoices && b.invoices[b.answers[j].hash].pubkey == pk
  {
    OpeningPaid();
    AdmittedIffPaid(OPENING, costs, ms);
    var b := HandleAll(OPENING, costs, ms);
    assert IsAdmitted(b, pk) <==> HasPaid(b, pk);
    if MayWrite(b, costs, pk) {
      WritersHavePaid(costs, ms, pk);
    }
  }

  /**
   * What a callback does to the tables: the answer becomes the status of the invoice; if it is
   * Paid, the owner is admitted and its balance grows by the amount, if the invoice was Unpaid, and
   * shrinks by the admission cost; no other account and no other invoice changes.
   */
  lemma CallbackMeans(b: Books, costs: Costs, hash: string, answer: Status)
    requires InvoicesOwned(b) && hash in b.invoices
    ensures var b' := Handle(b, costs, InvoicePaid(hash, Some(answer)));
            var invoice := b.invoices[hash];
            var account := b.accounts[invoice.pubkey];
            && b'.invoices == b.invoices[hash := Invoice(invoice.pubkey, invoice.amount, answer, invoice.createdAt)]
            && b'.accounts == (if answer != Paid then b.accounts
                               else b.accounts[invoice.pubkey :=
                                      Account(true, account.balance + (if invoice.status == Unpaid then invoice.amount else 0) - costs.admission)])
  {
    if answer.Paid? {
      SecondUpdateSame(b, hash);
    }
  }

  /**
   * What a check of an account with an open invoice does: the same as a callback for that invoice.
   * Without one, an account is opened if there is none, and a new invoice of it over the admission
   * cost is recorded if the processor issued one under an unused hash.
   */
  lemma CheckMeans(b: Books, costs: Costs, pk: string, found: Option<string>, answer: Option<Status>, issued: Issued)
    requires InvoicesOwned(b) && CanFind(b, pk, found)
    ensures var b' := Handle(b, costs, CheckAccount(pk, found, answer, issued));
            match found
            case Some(hash) => b' == Handle(b, costs, InvoicePaid(hash, answer))
            case None =>
              && b'.accounts == (if pk in b.accounts then b.accounts else b.accounts[pk := Account(false, 0)])
              && b'.invoices == (if issued.Issued? && issued.hash !in b.invoices
                                 then b.invoices[issued.hash := Invoice(pk, costs.admission, Unpaid, issued.at)] else b.invoices)
  {
    if found.Some? && answer == Some(Paid) {
      SecondUpdateSame(b, found.value);
    }
  }

  /** A new account message opens an account, and records a new invoice unless an old one is open. */
  lemma NewAccountMeans(b: Books, costs: Costs, pk: string, found: Option<string>, issued: Issued)
    ensures var b' := Handle(b, costs, NewAccount(pk, found, issued));
            && b'.accounts == (if pk in b.accounts then b.accounts else b.accounts[pk := Account(false, 0)])
            && b'.invoices == (if !(pk in b.accounts && found.Some?) && issued.Issued? && issued.hash !in b.invoices
                               then b.invoices[issued.hash := Invoice(pk, costs.admission, Unpaid, issued.at)] else b.invoices)
  {
  }
}
