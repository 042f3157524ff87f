/**
 The shape of one cultural-concept record of the map viewer's dataset.
 Coordinates are JavaScript numbers, taken here as reals; the dataset is
 read-only, so every record is a value. Field names are written in camel
 case (`core_theme` is `coreTheme`, `image_url` is `imageUrl`).
 */
module DataTypes {

  datatype Location = Location(latitude: real, longitude: real)

  datatype Flag = Flag(emoji: string, imageUrl: string)

  datatype Country = Country(
    name: string,
    iso2: string,
    capital: string,
    location: Location,
    flag: Flag)

  datatype Concept = Concept(
    word: string,
    originalLanguage: string,
    literalTranslation: string,
    description: string,
    coreTheme: string,
    tags: seq<string>)

  datatype Meta = Meta(
    region: string,
    category: string,
    modernUsage: bool,
    culturalDomain: seq<string>)

  datatype CulturalData = CulturalData(country: Country, concept: Concept, meta: Meta)
}
