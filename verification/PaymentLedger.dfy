/** The payment handler (src/payment/mod.rs) as an object whose repository calls change the tables in sequence. */
module PaymentLedger {
  import opened Common
  import opened Ledger

  class Payments {
    const costs: Costs
    var accounts: Accounts
    var invoices: Invoices
    ghost var credits: seq<Credit>
    ghost var admissions: seq<string>
    ghost var charges: seq<string>
    ghost var answers: seq<Answer>

    ghost function Current(): Books
      reads this
    {
      Books(accounts, invoices, credits, admissions, charges, answers)
    }

    constructor (costs: Costs)
      ensures Current() == OPENING && this.costs == costs
    {
      this.costs := costs;
      accounts, invoices := map[], map[];
      credits, admissions, charges, answers := [], [], [], [];
    }

    /** `create_account`: true exactly when the account is new. */
    method NewAccountRow(pk: string) returns (created: bool)
      modifies this`accounts
      ensures Current() == CreateAccount(old(Current()), pk)
      ensures created <==> pk !in old(accounts)
    {
      created := pk !in accounts;
      if created {
        accounts := accounts[pk := Account(false, 0)];
      }
    }

    /** `admit_account`. */
    method Admit(pk: string)
      modifies this`accounts, this`admissions
      ensures Current() == AdmitAccount(old(Current()), pk, costs.admission)
    {
      if pk in accounts {
        accounts := accounts[pk := Account(true, accounts[pk].balance - costs.admission)];
        admissions := admissions + [pk];
      }
    }

    /** `update_invoice`: the owner, or an error for an unknown payment hash. */
    method Update(hash: string, status: Status) returns (owner: Option<string>)
      modifies this`accounts, this`invoices, this`credits
      ensures hash !in old(invoices) ==> owner == None && Current() == old(Current())
      ensures hash in old(invoices) ==>
                owner == Some(old(invoices)[hash].pubkey) && Current() == UpdateInvoice(old(Current()), hash, status)
    {
      if hash !in invoices {
        return None;
      }
      var invoice := invoices[hash];
      invoices := invoices[hash := invoice.(status := status)];
      if invoice.status.Unpaid? && status.Paid? {
        accounts := AddBalance(accounts, invoice.pubkey, invoice.amount);
        credits := credits + [Credit(hash, invoice.pubkey, invoice.amount)];
      }
      return Some(invoice.pubkey);
    }

    /** `check_invoice_status`: fails if the processor does or the invoice is unknown. */
    method CheckStatus(hash: string, answer: Option<Status>) returns (status: Option<Status>)
      modifies this
      ensures status == if hash in old(invoices) then answer else None
      ensures status.None? ==> Current() == old(Current())
      ensures status.Some? ==> Current() == RecordAnswer(old(Current()), hash, status.value)
    {
      if answer.None? {
        return None;
      }
      var owner := Update(hash, answer.value);
      if owner.None? {
        return None;
      }
      answers := answers + [Answer(hash, answer.value)];
      return answer;
    }

    /** `get_invoice_info`. */
    method InvoiceInfo(pk: string, found: Option<string>, issued: Issued)
      modifies this
      ensures Current() == GetInvoiceInfo(old(Current()), costs, pk, found, issued)
    {
      var created := NewAccountRow(pk);
      if !created && found.Some? {
        return;
      }
      if issued.Issued? && issued.hash !in invoices {
        invoices := invoices[issued.hash := Invoice(pk, costs.admission, Unpaid, issued.at)];
      }
    }

    /** The balance check before a write and the charge after it. */
    method PayForWrite(pk: string, written: bool) returns (allowed: bool)
      modifies this`accounts, this`charges
      ensures allowed <==> old(MayWrite(Current(), costs, pk))
      ensures Current() == OnPaidWrite(old(Current()), costs, pk, written)
      ensures allowed <==> pk in old(accounts) && old(accounts)[pk].admitted
                           && 0 <= old(accounts)[pk].balance && costs.perEvent <= old(accounts)[pk].balance
      ensures allowed && written ==>
                accounts == old(accounts)[pk := Account(true, old(accounts)[pk].balance - costs.perEvent)]
      ensures !allowed || !written ==> accounts == old(accounts)
      ensures allowed ==> pk in accounts && accounts[pk].balance >= 0
    {
      allowed := pk in accounts && accounts[pk].admitted && accounts[pk].balance >= 0 && accounts[pk].balance >= costs.perEvent;
      if allowed && written && costs.perEvent > 0 {
        accounts := AddBalance(accounts, pk, 0 - costs.perEvent);
        charges := charges + [pk];
      }
    }

    /** One message of the payment channel, or one write. */
    method Receive(m: Message)
      requires Possible(Current(), m)
      modifies this
      ensures Current() == Handle(old(Current()), costs, m)
      ensures old(Balanced(Current(), costs)) ==> Balanced(Current(), costs)
    {
      ghost var before := Current();
      if Balanced(before, costs) {
        HandleBalanced(before, costs, m);
      }
      match m {
        case NewAccount(pk, found, issued) => InvoiceInfo(pk, found, issued);
        case CheckAccount(pk, found, answer, issued) =>
          if found.Some? {
            var status := CheckStatus(found.value, answer);
            if status == Some(Paid) {
              Admit(pk);
            }
          } else {
            InvoiceInfo(pk, None, issued);
          }
        case InvoicePaid(hash, answer) =>
          var status := CheckStatus(hash, answer);
          if status == Some(Paid) {
            var owner := Update(hash, Paid);
            Admit(owner.value);
          }
        case PaidWrite(pk, written) =>
          var allowed := PayForWrite(pk, written);
      }
    }
  }
}
