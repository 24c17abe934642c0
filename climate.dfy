/**
 * The dataset the routes query: the `measurement` and `station` tables of
 * the climate database, as in-memory sequences in table order.
 */
module Climate {
  import opened Wrappers

  /** One row of `measurement`: a station's readings on one day (NULL is None). */
  datatype Measurement = Measurement(station: string, date: string, prcp: Option<real>, tobs: Option<real>)

  /** One row of `station`; `id` is the code that `Measurement.station` refers to. */
  datatype Station = Station(id: string, name: string, latitude: real, longitude: real, elevation: real)

  /** Why a query produced no answer. */
  datatype Error =
    | EmptyDataset           // `.first()` found no row, so indexing it fails
    | MalformedDate(text: string)  // `strptime` rejected a stored date
    | DateOutOfRange         // the 365-day step left the representable calendar
}
