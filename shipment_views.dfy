/**
 * `ShipmentListView.get` of shipping/views.py: a superuser sees every
 * shipment, anyone else only their own, and each selected shipment becomes
 * one response row. The view reads the shipment table and writes nothing,
 * so it is a function of that table.
 */
module ShipmentViews {
  import opened Common
  import opened Records

  /** STATUS_CHOICES of shipping/models.py. */
  datatype Status = Pending | LabelGenerated | Shipped | InTransit | OutForDelivery
                  | Delivered | Exception | Cancelled

  /**
   * A `Shipment` row (the columns the view reads, and its status); a file
   * field is its stored name, "" when empty.
   */
  datatype Shipment = Shipment(
    owner: UserId,
    status: Status,
    itemName: string,
    productValue: real,
    trackingNumber: string,
    image: string,
    weight: Option<string>,
    dimension: Option<string>,
    invoicePdf: string,
    shippingPrice: real,
    createdAt: int)

  /** One element of the response. */
  datatype Row = Row(
    itemName: string,
    productValue: real,
    trackingNumber: string,
    shippingPrice: real,
    invoiceUrl: Option<string>,
    createdAt: int,
    image: Option<string>,
    dimension: Option<string>)

  /** `Shipment.objects.filter(user=...)`, in table order. */
  function OwnedBy(shipments: seq<Shipment>, owner: UserId): (r: seq<Shipment>)
    ensures |r| <= |shipments|
    ensures forall s :: s in r <==> s in shipments && s.owner == owner
  {
    if shipments == [] then []
    else (if shipments[0].owner == owner then [shipments[0]] else []) + OwnedBy(shipments[1..], owner)
  }

  /** The filter keeps table order: it distributes over concatenation. */
  lemma {:induction false} OwnedByAppend(a: seq<Shipment>, b: seq<Shipment>, owner: UserId)
    ensures OwnedBy(a + b, owner) == OwnedBy(a, owner) + OwnedBy(b, owner)
  {
    if a != [] {
      var head := if a[0].owner == owner then [a[0]] else [];
      assert (a + b)[0] == a[0] && (a + b)[1..] == a[1..] + b;
      OwnedByAppend(a[1..], b, owner);
      calc {
        OwnedBy(a + b, owner);
        head + OwnedBy(a[1..] + b, owner);
        head + (OwnedBy(a[1..], owner) + OwnedBy(b, owner));
        (head + OwnedBy(a[1..], owner)) + OwnedBy(b, owner);
        OwnedBy(a, owner) + OwnedBy(b, owner);
      }
    } else {
      assert a + b == b;
    }
  }

  /** Every owned shipment is kept as often as it occurs; no other one is. */
  lemma {:induction false} OwnedByCounts(shipments: seq<Shipment>, owner: UserId, s: Shipment)
    ensures multiset(OwnedBy(shipments, owner))[s] ==
            if s.owner == owner then multiset(shipments)[s] else 0
  {
    if shipments != [] {
      OwnedByCounts(shipments[1..], owner, s);
      assert shipments == [shipments[0]] + shipments[1..];
    }
  }

  /** The shipments the requester may see. */
  function Visible(requester: User, shipments: seq<Shipment>): (r: seq<Shipment>)
    ensures requester.isSuperuser ==> r == shipments
    ensures forall s :: s in r ==> requester.isSuperuser || s.owner == requester.id
    ensures forall s :: s in shipments && s.owner == requester.id ==> s in r
  {
    if requester.isSuperuser then shipments else OwnedBy(shipments, requester.id)
  }

  /**
   * A file field's absolute URL, or None when the field is empty; the URL
   * scheme and host come from the request (`absoluteUri`).
   */
  function FileUrl(file: string, absoluteUri: string -> string): Option<string> {
    if file != "" then Some(absoluteUri(file)) else None
  }

  /** The row a shipment becomes. */
  function RowOf(s: Shipment, absoluteUri: string -> string): (row: Row)
    ensures row.itemName == s.itemName && row.productValue == s.productValue
    ensures row.trackingNumber == s.trackingNumber && row.shippingPrice == s.shippingPrice
    ensures row.createdAt == s.createdAt && row.dimension == s.dimension
    ensures row.invoiceUrl.None? <==> s.invoicePdf == ""
    ensures s.invoicePdf != "" ==> row.invoiceUrl == Some(absoluteUri(s.invoicePdf))
    ensures row.image.None? <==> s.image == ""
    ensures s.image != "" ==> row.image == Some(absoluteUri(s.image))
  {
    Row(s.itemName, s.productValue, s.trackingNumber, s.shippingPrice,
        FileUrl(s.invoicePdf, absoluteUri), s.createdAt, FileUrl(s.image, absoluteUri), s.dimension)
  }

  /** `ShipmentListView.get`: one row per visible shipment, in order. */
  function ShipmentList(requester: User, shipments: seq<Shipment>, absoluteUri: string -> string)
    : (rows: seq<Row>)
    ensures |rows| == |Visible(requester, shipments)|
    ensures forall i :: 0 <= i < |rows| ==> rows[i] == RowOf(Visible(requester, shipments)[i], absoluteUri)
  {
    var visible := Visible(requester, shipments);
    seq(|visible|, i requires 0 <= i < |visible| => RowOf(visible[i], absoluteUri))
  }

  /** A superuser gets one row for every shipment in the table. */
  lemma SuperuserSeesEveryShipment(requester: User, shipments: seq<Shipment>, absoluteUri: string -> string)
    requires requester.isSuperuser
    ensures |ShipmentList(requester, shipments, absoluteUri)| == |shipments|
    ensures forall i :: 0 <= i < |shipments| ==>
              ShipmentList(requester, shipments, absoluteUri)[i].itemName == shipments[i].itemName
  {
  }

  /**
   * For anyone else the rows are those of their own shipments, in table
   * order: one per owned shipment, so the shipments of others are dropped.
   */
  lemma UserSeesOwnShipments(requester: User, shipments: seq<Shipment>, absoluteUri: string -> string)
    requires !requester.isSuperuser
    ensures |ShipmentList(requester, shipments, absoluteUri)| ==
            |shipments| - CountOthers(shipments, requester.id)
    ensures forall i :: 0 <= i < |ShipmentList(requester, shipments, absoluteUri)| ==>
              ShipmentList(requester, shipments, absoluteUri)[i] ==
              RowOf(OwnedBy(shipments, requester.id)[i], absoluteUri)
  {
    OwnedCount(shipments, requester.id);
  }

  /** How many shipments belong to someone other than `owner`. */
  function CountOthers(shipments: seq<Shipment>, owner: UserId): nat {
    if shipments == [] then 0
    else (if shipments[0].owner != owner then 1 else 0) + CountOthers(shipments[1..], owner)
  }

  /** The filter drops exactly the shipments of others. */
  lemma {:induction false} OwnedCount(shipments: seq<Shipment>, owner: UserId)
    ensures |OwnedBy(shipments, owner)| == |shipments| - CountOthers(shipments, owner)
  {
    if shipments != [] {
      OwnedCount(shipments[1..], owner);
    }
  }
}
