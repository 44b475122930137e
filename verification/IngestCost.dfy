/** Reserving credits for a crawl and giving back what was not used. */
module IngestCost {
  import opened Commons
  import opened Ledger
  import opened Utf8
  import MarkdownSlicer

  datatype DocType = Html | Pdf

  /** `size` is in bytes until the refund converts it to kilobytes in place. */
  datatype Document = Document(size: int, description: string, docType: DocType)

  datatype RefundDetail = Full | Partial

  /** `bytes_conversion(size, 'b', 'kb')`: whole kilobytes, rounded up. */
  function ToKb(size: int): (kb: int)
    ensures 1024 * kb >= size > 1024 * kb - 1024
  {
    (size + 1023) / 1024
  }

  function Converted(docs: seq<Document>): seq<Document> {
    if docs == [] then [] else Converted(docs[..|docs| - 1]) + [InKb(docs[|docs| - 1])]
  }

  function InKb(doc: Document): Document {
    doc.(size := ToKb(doc.size))
  }

  function SumKb(docs: seq<Document>): int {
    if docs == [] then 0 else SumKb(docs[..|docs| - 1]) + ToKb(docs[|docs| - 1].size)
  }

  function SumBytes(docs: seq<Document>): int {
    if docs == [] then 0 else SumBytes(docs[..|docs| - 1]) + docs[|docs| - 1].size
  }

  function CountOf(docs: seq<Document>, t: DocType): (n: nat)
    ensures n <= |docs|
  {
    if docs == [] then 0
    else CountOf(docs[..|docs| - 1], t) + (if docs[|docs| - 1].docType == t then 1 else 0)
  }

  /** The cap a document is refunded against. */
  function CapOf(t: DocType, html: int, pdfCap: int): int {
    if t == Pdf then pdfCap else html
  }

  /** What one database gets back for the documents: the cap minus the size of each.  The code
      takes the html cap for pdf documents too: `pdfCap` is `html` there. */
  function DocumentRefund(docs: seq<Document>, html: int, pdfCap: int): int {
    if docs == [] then 0
    else
      var last := docs[|docs| - 1];
      DocumentRefund(docs[..|docs| - 1], html, pdfCap) + (CapOf(last.docType, html, pdfCap) - ToKb(last.size))
  }

  function Positive(x: int): nat {
    if x > 0 then x else 0
  }

  /** What one database gets back for reserved documents that never came. */
  function TopUpRefund(docs: seq<Document>, html: int, pdf: int, urlSize: int, pdfSize: int): int {
    html * Positive(urlSize - CountOf(docs, Html)) + pdf * Positive(pdfSize - CountOf(docs, Pdf))
  }

  /** The same amount once for every chosen database. */
  function PerDatabase(vector: bool, graph: bool, amount: int): int {
    (if vector then amount else 0) + (if graph then amount else 0)
  }

  datatype Database = Vector | Graph

  /** Every chosen database pays the whole amount. */
  lemma EachDatabasePays(vector: bool, graph: bool, amount: int)
    ensures var chosen := (if vector then {Vector} else {}) + (if graph then {Graph} else {});
            PerDatabase(vector, graph, amount) == |chosen| * amount
  {
    assert {Vector} + {} == {Vector} && {} + {Graph} == {Graph};
    assert {Vector} + {Graph} == {Vector, Graph};
  }

  lemma PerDatabaseSum(vector: bool, graph: bool, a: int, b: int)
    ensures PerDatabase(vector, graph, a + b) == PerDatabase(vector, graph, a) + PerDatabase(vector, graph, b)
  {
  }

  lemma CeilOfProduct(a: int, b: int)
    ensures Ceil((a as real) * (b as real)) == a * b
  {
    ProductOfInts(a, b);
    CeilOfInt(a * b);
  }

  lemma ProductOfInts(a: int, b: int)
    ensures (a as real) * (b as real) == (a * b) as real
  {
  }

  /** The refund part shared by `purchase` and `refund` calls on integers. */
  class MarkdownCost {
    const ledger: Cost
    const html: int
    const pdf: int
    const detail: RefundDetail

    /** Caps are given in megabytes and kept in kilobytes. */
    constructor (ledger: Cost, htmlMb: int, pdfMb: int, detail: RefundDetail)
      ensures this.ledger == ledger && html == 1024 * htmlMb && pdf == 1024 * pdfMb && this.detail == detail
    {
      this.ledger, this.detail := ledger, detail;
      html, pdf := 1024 * htmlMb, 1024 * pdfMb;
    }

    /** Whole numbers are charged as they are: the ceiling of their product is the product. */
    method RefundWhole(description: string, amount: int, quantity: int)
      modifies ledger`refundItems, ledger`refundCost
      ensures ledger.refundCost == old(ledger.refundCost) + amount * quantity
      ensures old(ledger.Balanced()) ==> ledger.Balanced()
    {
      CeilOfProduct(amount, quantity);
      ledger.Refund(description, amount as real, quantity as real);
    }

    method PurchaseWhole(description: string, amount: int, quantity: int)
      modifies ledger`purchaseItems, ledger`purchaseCost
      ensures ledger.purchaseCost == old(ledger.purchaseCost) + amount * quantity
      ensures old(ledger.Balanced()) ==> ledger.Balanced()
    {
      CeilOfProduct(amount, quantity);
      ledger.Purchase(description, amount as real, quantity as real);
    }

    /** One refund item per chosen database. */
    method RefundEach(description: string, amount: int, quantity: int, vector: bool, graph: bool)
      modifies ledger`refundItems, ledger`refundCost
      ensures ledger.refundCost == old(ledger.refundCost) + PerDatabase(vector, graph, amount * quantity)
      ensures old(ledger.Balanced()) ==> ledger.Balanced()
    {
      if vector {
        RefundWhole("[Vector] " + description, amount, quantity);
      }
      if graph {
        RefundWhole("[Graph] " + description, amount, quantity);
      }
    }

    method PurchaseEach(description: string, amount: int, quantity: int, vector: bool, graph: bool)
      modifies ledger`purchaseItems, ledger`purchaseCost
      ensures ledger.purchaseCost == old(ledger.purchaseCost) + PerDatabase(vector, graph, amount * quantity)
      ensures old(ledger.Balanced()) ==> ledger.Balanced()
    {
      if vector {
        PurchaseWhole("[Vector] - " + description, amount, quantity);
      }
      if graph {
        PurchaseWhole("[K-Graph] - " + description, amount, quantity);
      }
    }

    /** The crawl reservation: the caps times the numbers of reserved documents. */
    method Compute(urlSize: int, pdfSize: int, vector: bool, graph: bool)
      modifies ledger
      ensures ledger.purchaseCost == old(ledger.purchaseCost)
                + PerDatabase(vector, graph, Reservation(html, pdf, urlSize, pdfSize))
      ensures ledger.refundCost == old(ledger.refundCost) && ledger.refundItems == old(ledger.refundItems)
      ensures old(ledger.Balanced()) ==> ledger.Balanced()
    {
      PurchaseEach("urls", html, urlSize, vector, graph);
      PurchaseEach("pdf", pdf, pdfSize, vector, graph);
    }

    /** The refund after a crawl.  The sizes of the documents are converted in place; per
        database the amounts of `DocumentRefund` and `TopUpRefund` are given back, whichever
        detail is chosen. */
    method PostRefund(docs: array<Document>, vector: bool, graph: bool, urlSize: int, pdfSize: int)
      modifies docs, ledger
      ensures docs[..] == Converted(old(docs[..]))
      ensures ledger.refundCost == old(ledger.refundCost) + PerDatabase(vector, graph,
                DocumentRefund(old(docs[..]), html, html) + TopUpRefund(old(docs[..]), html, pdf, urlSize, pdfSize))
      ensures ledger.purchaseCost == old(ledger.purchaseCost) && ledger.purchaseItems == old(ledger.purchaseItems)
      ensures old(ledger.Balanced()) ==> ledger.Balanced()
    {
      var urlCounter, pdfCounter, total := RefundDocuments(docs, vector, graph);
      if detail == Full {
        RefundEach("Credit Refund", total, 1, vector, graph);
      }
      RefundTopUp(urlSize - urlCounter, pdfSize - pdfCounter, vector, graph);
      PerDatabaseSum(vector, graph, DocumentRefund(old(docs[..]), html, html),
                     TopUpRefund(old(docs[..]), html, pdf, urlSize, pdfSize));
    }

    /** The reserved documents that never came. */
    method RefundTopUp(diffUrl: int, diffPdf: int, vector: bool, graph: bool)
      modifies ledger`refundItems, ledger`refundCost
      ensures ledger.refundCost == old(ledger.refundCost)
                + PerDatabase(vector, graph, html * Positive(diffUrl) + pdf * Positive(diffPdf))
      ensures old(ledger.Balanced()) ==> ledger.Balanced()
    {
      PerDatabaseSum(vector, graph, html * Positive(diffUrl), pdf * Positive(diffPdf));
      if diffUrl > 0 {
        RefundEach("HTML Top Up Refund", html, diffUrl, vector, graph);
      }
      if diffPdf > 0 {
        RefundEach("PDF Top Up Refund", pdf, diffPdf, vector, graph);
      }
    }

    /** The loop over the documents: converts each, counts by type, sums what it leaves of
        the cap, and in partial detail refunds each on its own. */
    method RefundDocuments(docs: array<Document>, vector: bool, graph: bool)
      returns (urlCounter: nat, pdfCounter: nat, total: int)
      modifies docs, ledger`refundItems, ledger`refundCost
      ensures docs[..] == Converted(old(docs[..]))
      ensures urlCounter == CountOf(old(docs[..]), Html) && pdfCounter == CountOf(old(docs[..]), Pdf)
      ensures detail == Full ==> total == DocumentRefund(old(docs[..]), html, html)
      ensures ledger.refundCost == old(ledger.refundCost)
                + (if detail == Full then 0 else PerDatabase(vector, graph, DocumentRefund(old(docs[..]), html, html)))
      ensures old(ledger.Balanced()) ==> ledger.Balanced()
    {
      ghost var before := docs[..];
      urlCounter, pdfCounter, total := 0, 0, 0;
      var i := 0;
      while i < docs.Length
        invariant 0 <= i <= docs.Length
        invariant docs[..i] == Converted(before[..i]) && docs[i..] == before[i..]
        invariant urlCounter == CountOf(before[..i], Html) && pdfCounter == CountOf(before[..i], Pdf)
        invariant detail == Full ==> total == DocumentRefund(before[..i], html, html)
        invariant ledger.refundCost == old(ledger.refundCost)
                    + (if detail == Full then 0 else PerDatabase(vector, graph, DocumentRefund(before[..i], html, html)))
        invariant old(ledger.Balanced()) ==> ledger.Balanced()
      {
        OneMore(before, i, html);
        assert docs[i] == docs[i..][0] == before[i];
        if docs[i].docType == Pdf {
          pdfCounter := pdfCounter + 1;
        } else {
          urlCounter := urlCounter + 1;
        }
        var cost := RefundDocument(docs, i, vector, graph);
        if detail == Full {
          total := total + cost;
        }
        i := i + 1;
      }
      assert before[..i] == before && docs[..i] == docs[..];
    }

    /** One document: its size is overwritten with its conversion to kilobytes and what it
        leaves of the html cap is refunded now, or added up by the caller. */
    method RefundDocument(docs: array<Document>, i: nat, vector: bool, graph: bool) returns (cost: int)
      requires i < docs.Length
      modifies docs, ledger`refundItems, ledger`refundCost
      ensures cost == html - ToKb(old(docs[i]).size)
      ensures docs[..i + 1] == old(docs[..i]) + [InKb(old(docs[i]))] && docs[i + 1..] == old(docs[i..])[1..]
      ensures ledger.refundCost == old(ledger.refundCost)
                + (if detail == Full then 0 else PerDatabase(vector, graph, cost))
      ensures old(ledger.Balanced()) ==> ledger.Balanced()
    {
      docs[i] := InKb(docs[i]);
      if docs[i].docType == Pdf {
        cost := html - docs[i].size;
      } else {
        cost := html - docs[i].size;
      }
      if detail == Partial {
        RefundEach("Credit Refund: " + docs[i].description, 1, cost, vector, graph);
      }
    }
  }

  lemma OneMore(docs: seq<Document>, i: nat, html: int)
    requires i < |docs|
    ensures docs[i + 1..] == docs[i..][1..]
    ensures Converted(docs[..i + 1]) == Converted(docs[..i]) + [InKb(docs[i])]
    ensures DocumentRefund(docs[..i + 1], html, html) == DocumentRefund(docs[..i], html, html) + (html - ToKb(docs[i].size))
    ensures forall t :: CountOf(docs[..i + 1], t) == CountOf(docs[..i], t) + (if docs[i].docType == t then 1 else 0)
  {
    assert docs[..i + 1][..i] == docs[..i];
  }

  /** What one database is charged up front. */
  function Reservation(html: int, pdf: int, urlSize: int, pdfSize: int): int {
    html * urlSize + pdf * pdfSize
  }

  /** What one database is charged in the end. */
  function NetCharge(docs: seq<Document>, html: int, pdf: int, pdfCap: int, urlSize: int, pdfSize: int): int {
    Reservation(html, pdf, urlSize, pdfSize)
    - DocumentRefund(docs, html, pdfCap) - TopUpRefund(docs, html, pdf, urlSize, pdfSize)
  }

  lemma {:induction false} DocumentRefundSum(docs: seq<Document>, html: int, pdfCap: int)
    ensures DocumentRefund(docs, html, pdfCap) == html * CountOf(docs, Html) + pdfCap * CountOf(docs, Pdf) - SumKb(docs)
  {
    if docs != [] {
      DocumentRefundSum(docs[..|docs| - 1], html, pdfCap);
      OneMoreTimes(html, CountOf(docs[..|docs| - 1], Html));
      OneMoreTimes(pdfCap, CountOf(docs[..|docs| - 1], Pdf));
    }
  }

  lemma OneMoreTimes(cap: int, n: int)
    ensures cap * (n + 1) == cap * n + cap
  {
  }

  /** What one database pays, for every list of documents and every reservation: the
      kilobytes used, plus the difference between the cap charged and the cap refunded for
      every pdf document, minus the cap of each document beyond the reservation. */
  lemma NetChargeFormula(docs: seq<Document>, html: int, pdf: int, pdfCap: int, urlSize: int, pdfSize: int)
    ensures NetCharge(docs, html, pdf, pdfCap, urlSize, pdfSize)
         == SumKb(docs) + (pdf - pdfCap) * CountOf(docs, Pdf)
          - html * Positive(CountOf(docs, Html) - urlSize) - pdf * Positive(CountOf(docs, Pdf) - pdfSize)
  {
    DocumentRefundSum(docs, html, pdfCap);
    NetOfCounts(html, pdf, pdfCap, urlSize, pdfSize, CountOf(docs, Html), CountOf(docs, Pdf), SumKb(docs));
  }

  lemma NetOfCounts(html: int, pdf: int, pdfCap: int, urlSize: int, pdfSize: int, h: int, p: int, used: int)
    ensures html * urlSize + pdf * pdfSize
            - (html * h + pdfCap * p - used) - (html * Positive(urlSize - h) + pdf * Positive(pdfSize - p))
         == used + (pdf - pdfCap) * p - html * Positive(h - urlSize) - pdf * Positive(p - pdfSize)
  {
    SplitPositive(html, urlSize, h);
    SplitPositive(pdf, pdfSize, p);
    DistributeInt(p, pdf - pdfCap, pdfCap);
  }

  lemma SplitPositive(cap: int, reserved: int, came: int)
    ensures cap * reserved - cap * Positive(reserved - came) == cap * came - cap * Positive(came - reserved)
  {
    if reserved >= came {
      assert cap * (reserved - came) == cap * reserved - cap * came;
    } else {
      assert cap * (came - reserved) == cap * came - cap * reserved;
    }
  }

  /** Conservation: with no more documents than were reserved, a database pays exactly the
      kilobytes used if and only if no pdf document came or pdf documents are refunded
      against the cap they were charged with.  As written (`pdfCap == html`) that is when
      the two caps are equal. */
  lemma Conservation(docs: seq<Document>, html: int, pdf: int, pdfCap: int, urlSize: int, pdfSize: int)
    requires CountOf(docs, Html) <= urlSize && CountOf(docs, Pdf) <= pdfSize
    ensures NetCharge(docs, html, pdf, pdfCap, urlSize, pdfSize) == SumKb(docs)
      <==> CountOf(docs, Pdf) == 0 || pdfCap == pdf
  {
    NetChargeFormula(docs, html, pdf, pdfCap, urlSize, pdfSize);
    assert html * 0 == 0 && pdf * 0 == 0;
    ProductIsZero(pdf - pdfCap, CountOf(docs, Pdf));
  }

  lemma ProductIsZero(a: int, b: int)
    ensures a * b == 0 <==> a == 0 || b == 0
  {
  }

  /** The two bills of a crawl: the request is charged before the crawl, the job refunds after
      it, each on an empty ledger of its own.  Together they take `NetCharge` per database
      from the credits; within the reservation that is what was used exactly when no database
      was chosen, no pdf document came, or the two caps are equal. */
  method CrawlBills(request: MarkdownCost, job: MarkdownCost, docs: array<Document>,
                    vector: bool, graph: bool, urlSize: int, pdfSize: int) returns (charge: Bill, refund: Bill)
    requires request.ledger != job.ledger && request.html == job.html && request.pdf == job.pdf
    requires request.ledger.purchaseCost == request.ledger.refundCost == 0
    requires job.ledger.purchaseCost == job.ledger.refundCost == 0
    modifies docs, request.ledger, job.ledger
    ensures docs[..] == Converted(old(docs[..]))
    ensures charge.total + refund.total
         == PerDatabase(vector, graph, NetCharge(old(docs[..]), job.html, job.pdf, job.html, urlSize, pdfSize))
    ensures CountOf(old(docs[..]), Html) <= urlSize && CountOf(old(docs[..]), Pdf) <= pdfSize ==>
      (charge.total + refund.total == PerDatabase(vector, graph, SumKb(old(docs[..]))) <==>
        (!vector && !graph) || CountOf(old(docs[..]), Pdf) == 0 || job.html == job.pdf)
  {
    ghost var before := docs[..];
    request.Compute(urlSize, pdfSize, vector, graph);
    charge := request.ledger.GenerateBill();
    job.PostRefund(docs, vector, graph, urlSize, pdfSize);
    refund := job.ledger.GenerateBill();
    ghost var back := DocumentRefund(before, job.html, job.html) + TopUpRefund(before, job.html, job.pdf, urlSize, pdfSize);
    PerDatabaseSum(vector, graph, NetCharge(before, job.html, job.pdf, job.html, urlSize, pdfSize), back);
    if CountOf(before, Html) <= urlSize && CountOf(before, Pdf) <= pdfSize {
      Conservation(before, job.html, job.pdf, job.html, urlSize, pdfSize);
    }
  }

  /** The kilobytes used exceed the exact size by less than one kilobyte per document. */
  lemma {:induction false} KilobytesOfBytes(docs: seq<Document>)
    ensures SumBytes(docs) <= 1024 * SumKb(docs)
    ensures docs != [] ==> 1024 * SumKb(docs) < SumBytes(docs) + 1024 * |docs|
  {
    if docs != [] {
      KilobytesOfBytes(docs[..|docs| - 1]);
    }
  }

  /** Documents cut to the cap they are refunded against never make the refund negative. */
  lemma {:induction false} RefundNonNegative(docs: seq<Document>, htmlMb: nat, pdfMb: nat)
    requires forall d :: d in docs ==> d.size <= 1024 * 1024 * CapOf(d.docType, htmlMb, pdfMb)
    ensures DocumentRefund(docs, 1024 * htmlMb, 1024 * pdfMb) >= 0
  {
    if docs != [] {
      var n := |docs| - 1;
      assert docs[n] in docs;
      RefundNonNegative(docs[..n], htmlMb, pdfMb);
    }
  }

  /** The document is on the books with the size counted when some text was cut to `max` bytes. */
  ghost predicate CutTo(d: Document, max: nat) {
    exists s: Text :: MarkdownSlicer.SliceOf(s, max).Sized? && MarkdownSlicer.SliceOf(s, max).size == d.size
  }

  /** Every document the crawler cut to the cap it is refunded against leaves a refund that is
      not negative.  As written that cap is `htmlMb` for pdf documents as well. */
  lemma CutDocumentsRefund(docs: seq<Document>, htmlMb: nat, pdfMb: nat)
    requires forall d :: d in docs ==> CutTo(d, 1024 * 1024 * CapOf(d.docType, htmlMb, pdfMb))
    ensures DocumentRefund(docs, 1024 * htmlMb, 1024 * pdfMb) >= 0
  {
    forall d | d in docs ensures d.size <= 1024 * 1024 * CapOf(d.docType, htmlMb, pdfMb) {
      CutIsWithin(d, 1024 * 1024 * CapOf(d.docType, htmlMb, pdfMb));
    }
    RefundNonNegative(docs, htmlMb, pdfMb);
  }

  lemma CutIsWithin(d: Document, max: nat)
    requires CutTo(d, max)
    ensures d.size <= max
  {
    var s: Text :| MarkdownSlicer.SliceOf(s, max).Sized? && MarkdownSlicer.SliceOf(s, max).size == d.size;
    MarkdownSlicer.SliceFits(s, max);
  }

  /** Exactly when the refund for the documents is not negative. */
  lemma RefundNonNegativeIff(docs: seq<Document>, html: int, pdfCap: int)
    ensures DocumentRefund(docs, html, pdfCap) >= 0
      <==> SumKb(docs) <= html * CountOf(docs, Html) + pdfCap * CountOf(docs, Pdf)
  {
    DocumentRefundSum(docs, html, pdfCap);
  }

  /** As written a pdf document within the pdf cap can: with the default caps of 2 and 10
      megabytes a pdf of 5 megabytes takes 3072 credits back. */
  lemma PdfRefundCanBeNegative()
    ensures DocumentRefund([Document(5 * 1024 * 1024, "report", Pdf)], 1024 * 2, 1024 * 2) == -3072
  {
    var d := Document(5 * 1024 * 1024, "report", Pdf);
    assert [d][..0] == [];
    assert ToKb(d.size) == 5120;
  }

  /** Converting twice is harmless only for documents of at most one kilobyte. */
  lemma ConversionIdempotentIff(size: nat)
    ensures ToKb(ToKb(size)) == ToKb(size) <==> size <= 1024
  {
  }
}
