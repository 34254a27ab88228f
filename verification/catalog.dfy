/** The product records of the products page, the category label table, and
    the quick-view lookup by id. */
module Catalog {
  import opened Wrappers

  datatype Product = Product(
    id: int,
    title: string,
    category: string,
    description: string,
    specs: seq<string>,
    price: string,
    icon: string,
    img: Option<string>)

  const Quote := "Contact for Quote"

  /** `allProducts`: the fixed catalog, in page order. */
  const AllProducts: seq<Product> := [
    Product(1, "Elevator Cabin AC System", "climate",
      "Specialized HVAC system for elevator cabins with energy-efficient operation.",
      ["Energy Efficient", "Low Noise", "Compact Design"], Quote, "fas fa-snowflake", None),
    Product(2, "360\U{00B0} Surveillance Camera", "security",
      "Advanced 360-degree surveillance system with night vision.",
      ["4K Resolution", "Night Vision", "Wide Angle"], Quote, "fas fa-video", None),
    Product(3, "Touch Screen Control Panel", "components",
      "Modern touch screen interface for elevator control.",
      ["Touch Screen", "Multi-language", "ADA Compliant"], Quote, "fas fa-sliders-h", None),
    Product(4, "Digital Multimedia Display", "multimedia",
      "High-resolution digital display for elevator entertainment.",
      ["Full HD", "Weatherproof", "Remote Management"], Quote, "fas fa-tv", None),
    Product(5, "IOT Smart Sensor Kit", "iot",
      "Wireless sensor kit for predictive maintenance.",
      ["Wireless", "Real-time Data", "Predictive Alerts"], Quote, "fas fa-wifi", None),
    Product(6, "Emergency Communication System", "security",
      "Integrated emergency communication system.",
      ["Two-way Audio", "Auto Alarm", "Battery Backup"], Quote, "fas fa-phone-alt", None),
    Product(7, "Ventilation Control Unit", "climate",
      "Advanced ventilation control for optimal air quality.",
      ["Auto Mode", "Air Quality Sensor", "Quiet Operation"], Quote, "fas fa-wind", None),
    Product(8, "Premium Audio System", "multimedia",
      "High-fidelity audio system for elevator announcements.",
      ["HD Audio", "Multi-zone", "Weather Resistant"], Quote, "fas fa-volume-up", None),
    Product(9, "LED Lighting System", "components",
      "Energy-efficient LED lighting with emergency backup.",
      ["LED", "Energy Saving", "Emergency Backup"], Quote, "fas fa-lightbulb", None),
    Product(10, "Floor Position Indicator", "components",
      "Digital floor display with braille for accessibility.",
      ["Digital Display", "Braille", "ADA Compliant"], Quote, "fas fa-layer-group", None),
    Product(11, "Door Safety Sensor", "security",
      "Advanced safety sensors for elevator doors.",
      ["Laser Sensors", "Auto Reverse", "Safety Certified"], Quote, "fas fa-door-closed", None),
    Product(12, "Smart Control Panel", "iot",
      "AI-powered control system for smart elevators.",
      ["AI Powered", "Touch Interface", "Cloud Connected"], Quote, "fas fa-brain", None),
    Product(13, "Emergency Lighting", "components",
      "Backup lighting system for power outages.",
      ["LED", "Auto On", "Long Battery"], Quote, "fas fa-light-emergency", None),
    Product(14, "Air Purification System", "climate",
      "Advanced air purification for elevator cabins.",
      ["HEPA Filter", "UV Sterilization", "Auto Mode"], Quote, "fas fa-air-freshener", None),
    Product(15, "Digital Signage Display", "multimedia",
      "Interactive digital signage for elevators.",
      ["Interactive", "High Brightness", "Remote Update"], Quote, "fas fa-ad", None)
  ]

  /** The five category keys that have a display label. */
  predicate IsKnownCategory(c: string) {
    c == "climate" || c == "security" || c == "multimedia" || c == "iot" || c == "components"
  }

  /** The catalog holds fifteen products with ids 1 to 15 in order, each in a known category. */
  lemma CatalogShape()
    ensures |AllProducts| == 15
    ensures forall i :: 0 <= i < 15 ==> AllProducts[i].id == i + 1
    ensures forall p :: p in AllProducts ==> IsKnownCategory(p.category)
  {
  }

  /** `getCategoryName(category)`: the label for a known key, the key itself
      for any other string (a missing entry is `undefined`, and `||` falls back
      to the key). */
  function CategoryName(category: string): (name: string)
    ensures IsKnownCategory(category) ==> name != category && |name| > 0
    ensures !IsKnownCategory(category) ==> name == category
  {
    if category == "climate" then "Climate Control"
    else if category == "security" then "Security Systems"
    else if category == "multimedia" then "Multimedia"
    else if category == "iot" then "IOT & Smart Systems"
    else if category == "components" then "Electronic Components"
    else category
  }

  /** Distinct known keys get distinct labels, and no label is itself a key, so
      a displayed label names exactly one category. */
  lemma CategoryNameInjective(a: string, b: string)
    requires IsKnownCategory(a) && IsKnownCategory(b) && a != b
    ensures CategoryName(a) != CategoryName(b)
    ensures !IsKnownCategory(CategoryName(a))
  {
  }

  /** `products.find(p => p.id == id)`: the first product with that id, if any. */
  function FindById(products: seq<Product>, id: int): (r: Option<Product>)
    ensures r.None? <==> forall p :: p in products ==> p.id != id
    ensures r.Some? ==> exists k :: 0 <= k < |products| && products[k] == r.value && r.value.id == id
                          && forall j :: 0 <= j < k ==> products[j].id != id
  {
    if |products| == 0 then None
    else if products[0].id == id then Some(products[0])
    else
      var r := FindById(products[1..], id);
      FindByIdShift(products, id, r);
      r
  }

  lemma FindByIdShift(products: seq<Product>, id: int, r: Option<Product>)
    requires |products| > 0 && products[0].id != id
    requires r.Some? ==> exists k :: 0 <= k < |products[1..]| && products[1..][k] == r.value && r.value.id == id
                           && forall j :: 0 <= j < k ==> products[1..][j].id != id
    ensures r.Some? ==> exists k :: 0 <= k < |products| && products[k] == r.value && r.value.id == id
                          && forall j :: 0 <= j < k ==> products[j].id != id
  {
    if r.Some? {
      var k :| 0 <= k < |products[1..]| && products[1..][k] == r.value && r.value.id == id
               && forall j :: 0 <= j < k ==> products[1..][j].id != id;
      assert products[k + 1] == r.value;
      assert forall j :: 0 <= j < k + 1 ==> products[j].id != id by {
        forall j | 0 <= j < k + 1 ensures products[j].id != id {
          if j > 0 {
            assert products[j] == products[1..][j - 1];
          }
        }
      }
    }
  }

  /** `openQuickView(product)`: the product whose details the modal shows, or
      `None` when the modal is missing or no product was found. */
  function OpenQuickView(modalPresent: bool, product: Option<Product>): Option<Product>
  {
    if !modalPresent || product.None? then None else product
  }

  /** A "View Details" click for `id`: the modal opens exactly for an id of the
      catalog, and then shows that product. */
  lemma QuickViewOpensForCatalogIds(id: int)
    ensures OpenQuickView(true, FindById(AllProducts, id)).Some? <==> 1 <= id <= 15
    ensures 1 <= id <= 15 ==> OpenQuickView(true, FindById(AllProducts, id)) == Some(AllProducts[id - 1])
  {
    CatalogShape();
    var r := FindById(AllProducts, id);
    if 1 <= id <= 15 {
      assert AllProducts[id - 1] in AllProducts;
      var k :| 0 <= k < |AllProducts| && AllProducts[k] == r.value && r.value.id == id;
      assert k == id - 1;
    } else {
      forall p | p in AllProducts ensures p.id != id {
        var i :| 0 <= i < |AllProducts| && AllProducts[i] == p;
      }
    }
  }

}
