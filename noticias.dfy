/**
 * The `noticias` table row. Nullable columns are `Option`s. `classification` is not
 * declared on the mapped class; it is the column the maintenance script reads, and it is
 * kept here so that the script can be modelled.
 */
module Noticias {
  import opened Wrappers
  import opened Dates

  datatype Noticia = Noticia(
    id: int,
    titulo: string,
    contenido: string,
    fecha: Date,
    url: string,
    esAccidenteTransito: Option<bool>,
    contenidoCrudo: Option<string>,
    mediaId: Option<string>,
    esAccidenteSimple: Option<bool>,
    esAccidenteStem: Option<bool>,
    esAccidenteLemma: Option<bool>,
    esAccidenteMl: Option<bool>,
    classification: Option<string>)
}
