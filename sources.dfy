/** The venues the ingester knows, with the class attributes each fetcher
    class sets: its display name, the root its relative links are joined
    to, and the listing page it starts from. */
module Sources {

  datatype Venue =
    | Albany
    | Belgrade
    | SymphonyHall
    | Hippodrome
    | ResortsWorld
    | ArenaBirmingham
    | Artrix
    | NewAlexandra
    | WarwickArtsCentre

  /** The `name` attribute, the label shows are uploaded under. */
  function Name(v: Venue): string
  {
    match v
    case Albany => "Albany"
    case Belgrade => "Belgrade"
    case SymphonyHall => "Symphony Hall"
    case Hippodrome => "Hippodrome"
    case ResortsWorld => "Resortsworld Arena"
    case ArenaBirmingham => "Arena Birmingham"
    case Artrix => "Artrix"
    case NewAlexandra => "New Alexandra"
    case WarwickArtsCentre => "Warwick Arts Centre"
  }

  /** The `root_url` attribute. */
  function RootUrl(v: Venue): string
  {
    match v
    case Albany => "https://albanytheatre.co.uk/"
    case Belgrade => "http://www.belgrade.co.uk/"
    case SymphonyHall => "https://www.thsh.co.uk/"
    case Hippodrome => "https://www.birminghamhippodrome.com/"
    case ResortsWorld => "https://www.resortsworldarena.co.uk/"
    case ArenaBirmingham => "https://www.arenabham.co.uk/"
    case Artrix => "https://www.artrix.co.uk/"
    case NewAlexandra => "https://www.atgtickets.com/"
    case WarwickArtsCentre => "https://www.warwickartscentre.co.uk/"
  }

  /** The `url` attribute: the listing page, or the base the page
      parameters are appended to. */
  function ListingUrl(v: Venue): string
  {
    match v
    case Albany => "https://albanytheatre.co.uk/whats-on/"
    case Belgrade => "http://www.belgrade.co.uk/whats-on/"
    case SymphonyHall => "https://www.thsh.co.uk/whats-on/"
    case Hippodrome => "https://www.birminghamhippodrome.com/whats-on/"
    case ResortsWorld => "https://www.resortsworldarena.co.uk/whats-on/"
    case ArenaBirmingham => "https://www.arenabham.co.uk/whats-on/"
    case Artrix => "https://www.artrix.co.uk/whats-on/"
    case NewAlexandra => "https://www.atgtickets.com/venues/the-alexandra-theatre-birmingham/"
    case WarwickArtsCentre => "https://www.warwickartscentre.co.uk/whats-on/list"
  }
}
